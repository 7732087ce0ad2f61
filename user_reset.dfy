/** Password resets (user_reset.go): the record, its expiry and its
    statements on the users_resets table, including the per-user count the
    rate limit reads. */
module Resets {
  import opened Wrappers
  import opened Settings
  import opened Helpers
  import opened Database

  /** NewUserReset: a fresh selector and token; the record keeps the token's
      digest and only the returned value keeps the token itself. */
  method NewUserReset(userID: int, expires: int, entropy: Entropy) returns (c: Issued)
    ensures c.credential == Reset(NullInt, userID, SelectorFrom(entropy), HashPassword(TokenFrom(entropy)), expires)
    ensures c.GetToken() == TokenFrom(entropy) && c.GetSelector() == SelectorFrom(entropy)
    ensures ValidateSelector(c.GetSelector()) && ValidateToken(c.GetToken())
    ensures VerifyHash(c.credential.token, c.GetToken()) && c.credential.token != c.GetToken()
  {
    var selector, token, hash := CreateTokenAuthenticator(entropy);
    c := Issued(Reset(NullInt, userID, selector, hash, expires), token);
  }

  /** A reset issued with the default lifetime at `now` is live through
      now + 86400 and expired after it. */
  lemma ResetLifetime(c: Credential, now: int, t: int)
    requires c.Reset? && c.expires == ResetExpiry(now)
    ensures c.HasExpired(t) <==> t > now + 86400
    ensures !c.HasExpired(c.expires) && c.HasExpired(c.expires + 1)
  {
  }

  /** dbCreateUserReset: the INSERT fails on a selector already in the table
      and otherwise appends the record under the next key. */
  method CreateUserReset(db: Store, c: Issued) returns (r: Result<int, Error>)
    requires db.Valid() && c.credential.Reset?
    modifies db`resets, db`nextResetID
    ensures db.Valid()
    ensures SelectorTaken(old(db.resets), c.GetSelector()) ==> r == Failure(UniqueSelector) && unchanged(db)
    ensures !SelectorTaken(old(db.resets), c.GetSelector()) ==>
      r == Success(old(db.nextResetID))
      && db.resets == old(db.resets) + [c.credential.WithID(old(db.nextResetID))]
      && db.nextResetID == old(db.nextResetID) + 1
  {
    if SelectorTaken(db.resets, c.GetSelector()) {
      return Failure(UniqueSelector);
    }
    var row := c.credential.WithID(db.nextResetID);
    AppendKeepsSelectorsUnique(db.resets, row);
    db.resets := db.resets + [row];
    r := Success(db.nextResetID);
    db.nextResetID := db.nextResetID + 1;
  }

  /** Creating a reset adds one to its user's count and leaves every other
      user's count as it was. */
  lemma CreateCountsOne(rows: seq<Credential>, c: Credential, n: int, userID: int)
    ensures CountOfUser(rows + [c.WithID(n)], userID) ==
            CountOfUser(rows, userID) + (if c.userID == userID then 1 else 0)
  {
    CountAfterInsert(rows, c.WithID(n), userID);
  }

  /** dbDeleteUserReset: the row with that selector goes, the others stay. */
  method DeleteUserReset(db: Store, selector: string) returns (r: Outcome<Error>)
    requires db.Valid()
    modifies db`resets
    ensures db.Valid()
    ensures r == Pass && db.resets == WithoutSelector(old(db.resets), selector)
    ensures forall c :: c in db.resets <==> c in old(db.resets) && c.selector != selector
    ensures SelectorTaken(old(db.resets), selector) ==> |db.resets| == |old(db.resets)| - 1
  {
    if SelectorTaken(db.resets, selector) {
      WithoutSelectorRemovesOne(db.resets, selector);
    }
    db.resets := WithoutSelector(db.resets, selector);
    r := Pass;
  }

  /** dbDeleteUserResetByUserID: every row of that user goes, so the user's
      count drops to 0 and nobody else's changes. */
  method DeleteUserResetByUserID(db: Store, userID: int) returns (r: Outcome<Error>)
    requires db.Valid()
    modifies db`resets
    ensures db.Valid()
    ensures r == Pass && db.resets == WithoutUser(old(db.resets), userID)
    ensures forall c :: c in db.resets <==> c in old(db.resets) && c.userID != userID
    ensures CountOfUser(db.resets, userID) == 0
    ensures forall other :: other != userID ==> CountOfUser(db.resets, other) == CountOfUser(old(db.resets), other)
  {
    forall other ensures CountOfUser(WithoutUser(db.resets, userID), other) ==
                         if other == userID then 0 else CountOfUser(db.resets, other) {
      CountAfterDeleteUser(db.resets, userID, other);
    }
    db.resets := WithoutUser(db.resets, userID);
    r := Pass;
  }

  /** dbGetUserResetCount: `SELECT COUNT(*) WHERE user_id = ?`, which counts
      expired rows as well as live ones. */
  method GetUserResetCount(db: Store, userID: int) returns (count: int)
    ensures count == CountOfUser(db.resets, userID)
    ensures count == |RowsOfUser(db.resets, userID)|
  {
    CountIsRowsOfUser(db.resets, userID);
    count := CountOfUser(db.resets, userID);
  }

  /** The count does not look at expiry: adding a row of the user that has
      already expired still adds one. */
  lemma CountIncludesExpired(rows: seq<Credential>, c: Credential, now: int)
    requires c.Reset? && c.HasExpired(now)
    ensures CountOfUser(rows + [c], c.userID) == CountOfUser(rows, c.userID) + 1
  {
    CountAfterInsert(rows, c, c.userID);
  }

  /** dbGetUserResetBySelector: the row with that selector, or the driver's
      no-rows error. */
  method GetUserResetBySelector(db: Store, selector: string) returns (r: Result<Credential, Error>)
    requires db.Valid()
    ensures r.Success? <==> SelectorTaken(db.resets, selector)
    ensures r.Success? ==> r.value in db.resets && r.value.selector == selector && r.value.Reset?
    ensures r.Failure? ==> r.error == NoRows
  {
    match FindBySelector(db.resets, selector)
    case None => r := Failure(NoRows);
    case Some(c) => r := Success(c);
  }

  /** dbGetUserResetByUserID: exactly the rows of that user, in table order;
      as many as the count reports. */
  method GetUserResetByUserID(db: Store, userID: int) returns (rows: seq<Credential>)
    ensures rows == RowsOfUser(db.resets, userID)
    ensures forall c :: c in rows <==> c in db.resets && c.userID == userID
    ensures |rows| == CountOfUser(db.resets, userID)
  {
    rows := ScanByUserID(db.resets, userID);
    CountIsRowsOfUser(db.resets, userID);
  }
}
