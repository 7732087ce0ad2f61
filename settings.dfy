/** Constants and policy of the package: error identifiers, account statuses,
    roles, table names, credential lifetimes and the reset rate limit. */
module Settings {
  import opened Wrappers

  /** Every error a flow can return.  The first thirteen are the package's own
      error identifiers; the others stand for errors raised by the SQL store
      (their text belongs to the driver) and for whatever a callback returns. */
  datatype Error =
    | TokenExpired
    | InvalidPassword
    | InvalidEmail
    | TooManyRequests
    | EmailNotVerified
    | ResetDisabled
    | UserBlocked
    | InvalidSelector
    | InvalidToken
    | SendConfirm
    | SetCookie
    | NoDatabaseConn
    | InvalidUserID
      // raised by the store
    | PingFailed        // the error returned by db.Ping()
    | NoRows            // "sql: no rows in result set"
    | UniqueEmail       // UNIQUE constraint "email" of the users table
    | UniqueSelector    // UNIQUE constraint "selector" of a credential table
    | NotNull           // NULL written into a NOT NULL column
    | NoSuchColumn      // an UPDATE naming a column the table does not have
    | DatatypeMismatch  // a value of the wrong kind for its column
      // returned by a notification callback
    | CallbackError(message: string)

  /** The errors the package defines as string constants. */
  predicate IsPackageError(e: Error) {
    !(e.PingFailed? || e.NoRows? || e.UniqueEmail? || e.UniqueSelector? || e.NotNull?
      || e.NoSuchColumn? || e.DatatypeMismatch? || e.CallbackError?)
  }

  /** The text of a package error, as `err.Error()` reports it. */
  function Message(e: Error): string
    requires IsPackageError(e)
  {
    match e
    case TokenExpired => "token expired"
    case InvalidPassword => "invalid password"
    case InvalidEmail => "invalid email"
    case TooManyRequests => "too many requests"
    case EmailNotVerified => "email is not verified"
    case ResetDisabled => "reset disabled"
    case UserBlocked => "user blocked"
    case InvalidSelector => "invalid selector"
    case InvalidToken => "invalid token"
    case SendConfirm => "failed to send confirmation email"
    case SetCookie => "failed to set remember cookie"
    case NoDatabaseConn => "no database connection"
    case InvalidUserID => "invalid user id"
  }

  /** Callers tell the package's errors apart by their text alone, which is
      sound because no two constants share a text. */
  lemma MessagesIdentifyErrors(a: Error, b: Error)
    requires IsPackageError(a) && IsPackageError(b)
    requires Message(a) == Message(b)
    ensures a == b
  {
  }

  /** A notification callback: hands a selector and a plaintext token to the
      account holder (an e-mail, a cookie) and reports success or an error. */
  type SelectorTokenCallBack = (string, string) -> Outcome<Error>

  const RoleUser: int := 1
  const RoleAdmin: int := 1000
  const RoleSuperAdmin: int := 65536
  const RoleDeveloper: int := 256

  const StatusNormal: int := 0
  const StatusArchived: int := 1
  const StatusBanned: int := 2
  const StatusLocked: int := 3
  const StatusPendingReview: int := 4
  const StatusSuspended: int := 5

  const UsersTable := "users"
  const ConfirmationsTable := "users_confirmations"
  const RememberedTable := "users_remembered"
  const ResetsTable := "users_resets"

  /** The table name for an identifier; `None` stands for the panic the
      source raises on any other name. */
  function GetTable(id: string): (name: Option<string>)
    ensures name.Some? <==> id in {UsersTable, ConfirmationsTable, RememberedTable, ResetsTable}
    ensures name.Some? ==> name.value == id
  {
    if id == UsersTable then Some(UsersTable)
    else if id == ConfirmationsTable then Some(ConfirmationsTable)
    else if id == RememberedTable then Some(RememberedTable)
    else if id == ResetsTable then Some(ResetsTable)
    else None
  }

  /** One hour, in the Unix seconds the expiry columns hold. */
  const Hour: int := 3600

  /** Expiry of an e-mail confirmation issued at `now`. */
  function ConfirmationExpiry(now: int): (expires: int)
    ensures expires - now == 60 * 60
  {
    now + Hour
  }

  /** Expiry of a remember-me credential issued at `now` (672 hours). */
  function RememberedExpiry(now: int): (expires: int)
    ensures expires - now == 28 * 24 * 60 * 60
  {
    now + 672 * Hour
  }

  /** Expiry of a password reset issued at `now` (24 hours). */
  function ResetExpiry(now: int): (expires: int)
    ensures expires - now == 24 * 60 * 60
  {
    now + 24 * Hour
  }

  /** How many reset rows one account may hold before further requests are refused. */
  const MaxUserResetRequests: int := 2
}
