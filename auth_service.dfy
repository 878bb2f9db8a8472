/**
 The authentication service: registration (`registerUser`) and credential
 checking with the login-history update (`checkUser`), over the `User` table.

 Each operation is one sequential run. What the JavaScript delivers through a
 promise becomes the method's outcome: success, or the rejection string given
 by `Message` of an `AuthError`. The random salt, the clock and every database
 failure are parameters.
 */
module AuthService {
  import opened LoginHistory
  import opened Password
  import opened UserStore

  /** The causes for which the service rejects, one per rejection string. */
  datatype AuthError =
    | PasswordMismatch
    | EncryptionFailed
    | UserNameTaken
    | CreateError(message: string)
    | UserNotFound(userName: string)
    | IncorrectPassword(userName: string)
    | HistoryUpdateError(reason: string)

  /** The string the promise is rejected with. */
  function Message(e: AuthError): string
  {
    match e
    case PasswordMismatch => "Passwords do not match"
    case EncryptionFailed => "Error encrypting the password"
    case UserNameTaken => "User Name already taken"
    case CreateError(m) => "Error creating user: " + m
    case UserNotFound(n) => "Unable to find user: " + n
    case IncorrectPassword(n) => "Incorrect Password for user: " + n
    case HistoryUpdateError(r) => "Error updating login history: " + r
  }

  lemma PrefixDetermines(p: string, a: string, b: string)
    requires p + a == p + b
    ensures a == b
  {
    assert a == (p + a)[|p|..];
    assert b == (p + b)[|p|..];
  }

  /** The detail a rejection carries, empty for the causes without one. */
  function Detail(e: AuthError): string
  {
    match e
    case CreateError(m) => m
    case UserNotFound(n) => n
    case IncorrectPassword(n) => n
    case HistoryUpdateError(r) => r
    case _ => ""
  }

  /** The fixed part of each rejection string, and the characters that tell the causes apart. */
  lemma MessageShape(e: AuthError)
    ensures |Message(e)| > 6
    ensures e.PasswordMismatch? ==> Message(e)[0] == 'P'
    ensures e.EncryptionFailed? ==> Message(e)[0] == 'E' && Message(e)[6] == 'e'
    ensures e.UserNameTaken? ==> Message(e)[0] == 'U' && Message(e)[1] == 's'
    ensures e.CreateError? ==>
              Message(e)[0] == 'E' && Message(e)[6] == 'c' &&
              Message(e) == "Error creating user: " + Detail(e)
    ensures e.UserNotFound? ==>
              Message(e)[0] == 'U' && Message(e)[1] == 'n' &&
              Message(e) == "Unable to find user: " + Detail(e)
    ensures e.IncorrectPassword? ==>
              Message(e)[0] == 'I' &&
              Message(e) == "Incorrect Password for user: " + Detail(e)
    ensures e.HistoryUpdateError? ==>
              Message(e)[0] == 'E' && Message(e)[6] == 'u' &&
              Message(e) == "Error updating login history: " + Detail(e)
  {
    var m := Message(e);
    match e
    case PasswordMismatch => assert m == "Passwords do not match";
    case EncryptionFailed => assert m == "Error encrypting the password";
    case UserNameTaken => assert m == "User Name already taken";
    case CreateError(d) => assert m == "Error creating user: " + d;
    case UserNotFound(d) => assert m == "Unable to find user: " + d;
    case IncorrectPassword(d) => assert m == "Incorrect Password for user: " + d;
    case HistoryUpdateError(d) => assert m == "Error updating login history: " + d;
  }

  /** A rejection string tells the cause apart, and within a cause its detail. */
  lemma {:induction false} MessageIdentifiesCause(e1: AuthError, e2: AuthError)
    ensures Message(e1) == Message(e2) <==> e1 == e2
  {
    if Message(e1) == Message(e2) {
      MessageShape(e1);
      MessageShape(e2);
      var p := if e1.CreateError? then "Error creating user: "
               else if e1.UserNotFound? then "Unable to find user: "
               else if e1.IncorrectPassword? then "Incorrect Password for user: "
               else "Error updating login history: ";
      if e1.CreateError? || e1.UserNotFound? || e1.IncorrectPassword? || e1.HistoryUpdateError? {
        PrefixDetermines(p, Detail(e1), Detail(e2));
      }
    }
  }

  /** The request body of a registration, which `registerUser` rewrites in place. */
  class UserData {
    var userName: string
    var password: string
    var password2: string
    var email: string
    var loginHistory: Option<seq<LoginEvent>>

    constructor (userName: string, password: string, password2: string, email: string)
      ensures this.userName == userName && this.password == password
      ensures this.password2 == password2 && this.email == email
      ensures this.loginHistory.None?
    {
      this.userName, this.password, this.password2, this.email := userName, password, password2, email;
      loginHistory := None;
    }
  }

  datatype Registration = Registered | RegistrationRejected(error: AuthError)

  /**
   `registerUser`. `salt` is what bcrypt drew, `None` when hashing failed;
   `storeFault` is a database failure of `User.create` other than the unique
   constraint.
   */
  method RegisterUser(table: UserTable, userData: UserData, salt: Option<Salt>, storeFault: Option<string>)
    returns (outcome: Registration)
    requires table.Valid()
    modifies table, userData
    ensures table.Valid()
    ensures old(HistoriesBounded(table.rows)) ==> HistoriesBounded(table.rows)
    // mismatched passwords: nothing hashed, nothing touched
    ensures old(userData.password != userData.password2) ==>
              outcome == RegistrationRejected(PasswordMismatch) &&
              unchanged(table) && unchanged(userData)
    // hashing failed: nothing touched
    ensures old(userData.password == userData.password2) && salt.None? ==>
              outcome == RegistrationRejected(EncryptionFailed) &&
              unchanged(table) && unchanged(userData)
    // hashed: the request body now carries the hash and an empty history
    ensures old(userData.password == userData.password2) && salt.Some? ==>
              userData.password == Hash(old(userData.password), salt.value) &&
              userData.loginHistory == Some([]) &&
              userData.userName == old(userData.userName) &&
              userData.password2 == old(userData.password2) &&
              userData.email == old(userData.email)
    ensures old(userData.password == userData.password2) && salt.Some? &&
            Position(old(table.rows), old(userData.userName)).Some? ==>
              outcome == RegistrationRejected(UserNameTaken) && table.rows == old(table.rows)
    ensures old(userData.password == userData.password2) && salt.Some? &&
            Position(old(table.rows), old(userData.userName)).None? && storeFault.Some? ==>
              outcome == RegistrationRejected(CreateError(storeFault.value)) &&
              table.rows == old(table.rows)
    ensures old(userData.password == userData.password2) && salt.Some? &&
            Position(old(table.rows), old(userData.userName)).None? && storeFault.None? ==>
              outcome == Registered &&
              table.rows == old(table.rows) +
                [UserRow(old(userData.userName), Hash(old(userData.password), salt.value),
                         old(userData.email), Some([]))]
  {
    if userData.password != userData.password2 {
      return RegistrationRejected(PasswordMismatch);
    }
    if salt.None? {
      return RegistrationRejected(EncryptionFailed);
    }
    userData.password := Hash(userData.password, salt.value);
    userData.loginHistory := Some([]);
    var row := UserRow(userData.userName, userData.password, userData.email, userData.loginHistory);
    var created := table.Create(row, storeFault);
    match created
    case Created => return Registered;
    case UniqueViolation => return RegistrationRejected(UserNameTaken);
    case CreateFailed(m) => return RegistrationRejected(CreateError(m));
  }

  /** The credentials `checkUser` is given, with the client's user agent. */
  datatype Credentials = Credentials(userName: string, password: string, userAgent: string)

  datatype Login = LoggedIn(user: UserInstance) | LoginRejected(error: AuthError)

  /** The stored history, a null one read as empty. */
  function StoredHistory(row: UserRow): seq<LoginEvent>
  {
    if row.loginHistory.Some? then row.loginHistory.value else []
  }

  /** The row after a successful login at `now` from `userAgent`. */
  function AfterLogin(row: UserRow, now: string, userAgent: string): (r: UserRow)
    ensures r.userName == row.userName && r.password == row.password && r.email == row.email
    ensures r.loginHistory == Some(RecordLogin(StoredHistory(row), LoginEvent(now, userAgent)))
    ensures HistoryBounded(row) ==> HistoryBounded(r)
  {
    row.(loginHistory := Some(RecordLogin(StoredHistory(row), LoginEvent(now, userAgent))))
  }

  /** A login on a row whose history is null stores a history holding just that login. */
  lemma LoginOnNullHistory(row: UserRow, now: string, userAgent: string)
    requires row.loginHistory.None?
    ensures AfterLogin(row, now, userAgent).loginHistory == Some([LoginEvent(now, userAgent)])
  {
    assert RecordLogin([], LoginEvent(now, userAgent)) == [LoginEvent(now, userAgent)];
  }

  /**
   `checkUser`. `now` is the timestamp `new Date().toString()` gives;
   `lookupFault` and `saveFault` are failures of `findOne` and `save`.
   */
  method CheckUser(table: UserTable, credentials: Credentials, now: string,
                   lookupFault: Option<string>, saveFault: Option<string>)
    returns (outcome: Login)
    requires table.Valid()
    modifies table
    ensures table.Valid()
    ensures old(HistoriesBounded(table.rows)) ==> HistoriesBounded(table.rows)
    // unknown user, or the lookup failed: one message for both, nothing written
    ensures lookupFault.Some? || Position(old(table.rows), credentials.userName).None? ==>
              outcome == LoginRejected(UserNotFound(credentials.userName)) &&
              table.rows == old(table.rows)
    ensures lookupFault.None? && Position(old(table.rows), credentials.userName).Some? ==>
              var i := Position(old(table.rows), credentials.userName).value;
              var row := old(table.rows)[i];
              // wrong password: nothing written
              (!Compare(credentials.password, row.password) ==>
                 outcome == LoginRejected(IncorrectPassword(credentials.userName)) &&
                 table.rows == old(table.rows)) &&
              // right password, save failed: nothing written
              (Compare(credentials.password, row.password) && saveFault.Some? ==>
                 outcome == LoginRejected(HistoryUpdateError(saveFault.value)) &&
                 table.rows == old(table.rows)) &&
              // right password, saved: the user returned is the row stored
              (Compare(credentials.password, row.password) && saveFault.None? ==>
                 outcome.LoggedIn? && fresh(outcome.user) &&
                 outcome.user.Row() == AfterLogin(row, now, credentials.userAgent) &&
                 table.rows == old(table.rows)[i := outcome.user.Row()])
  {
    var found := table.FindOne(credentials.userName, lookupFault);
    if !found.Found? {
      return LoginRejected(UserNotFound(credentials.userName));
    }
    var user := found.user;
    if !Compare(credentials.password, user.password) {
      return LoginRejected(IncorrectPassword(credentials.userName));
    }
    var history := if user.loginHistory.Some? then user.loginHistory.value else [];
    if |history| >= Capacity {
      history := history[..|history| - 1];                                  // pop
    }
    history := [LoginEvent(now, credentials.userAgent)] + history;          // unshift
    user.loginHistory := Some(history);
    ghost var i := Position(table.rows, credentials.userName).value;
    assert HistoryBounded(table.rows[i]) ==> HistoryBounded(user.Row());
    var error := table.Save(user, saveFault);
    if error.Some? {
      return LoginRejected(HistoryUpdateError(error.value));
    }
    return LoggedIn(user);
  }
}
