/**
 Callers of the service on a fresh table, showing what the contracts of
 `RegisterUser` and `CheckUser` let a client conclude.
 */
module Scenarios {
  import opened LoginHistory
  import opened Password
  import opened UserStore
  import opened AuthService

  /** The second registration of a taken name is refused; one row keeps the name. */
  method RegisterTwice(salt1: Salt, salt2: Salt) returns (first: Registration, second: Registration, rowsNamed: nat)
    ensures first == Registered
    ensures second == RegistrationRejected(UserNameTaken)
    ensures rowsNamed == 1
  {
    var table := new UserTable();
    var a := new UserData("a", "secret", "secret", "e@x.com");
    first := RegisterUser(table, a, Some(salt1), None);
    var b := new UserData("a", "other", "other", "f@x.com");
    second := RegisterUser(table, b, Some(salt2), None);
    AtMostOneRowPerName(table.rows, "a");
    rowsNamed := CountNamed(table.rows, "a");
  }

  /**
   After registering "a" with "secret": the stored password is not "secret";
   "wrong" is refused and leaves the history empty; "secret" is accepted and
   records the login.
   */
  method LoginAfterRegistration(salt: Salt, now: string)
    returns (stored: string, wrong: Login, historyAfterWrong: Option<seq<LoginEvent>>, right: Login)
    ensures stored != "secret"
    ensures wrong == LoginRejected(IncorrectPassword("a"))
    ensures historyAfterWrong == Some([])
    ensures right.LoggedIn? && right.user.loginHistory == Some([LoginEvent(now, "ua")])
  {
    var table := new UserTable();
    var form := new UserData("a", "secret", "secret", "e@x.com");
    var registered := RegisterUser(table, form, Some(salt), None);
    stored := table.rows[0].password;
    CompareAcceptsOnlyHashedPassword("secret", "wrong", salt);
    CompareAcceptsOnlyHashedPassword("secret", "secret", salt);
    wrong := CheckUser(table, Credentials("a", "wrong", "ua"), now, None, None);
    historyAfterWrong := table.rows[0].loginHistory;
    assert StoredHistory(table.rows[0]) == [];
    assert RecordLogin([], LoginEvent(now, "ua")) == [LoginEvent(now, "ua")];
    right := CheckUser(table, Credentials("a", "secret", "ua"), now, None, None);
  }

  /** An unknown name is refused with the lookup message and writes nothing. */
  method UnknownUser(now: string) returns (outcome: Login, rowCount: nat)
    ensures outcome == LoginRejected(UserNotFound("ghost"))
    ensures Message(outcome.error) == "Unable to find user: ghost"
    ensures rowCount == 0
  {
    var table := new UserTable();
    outcome := CheckUser(table, Credentials("ghost", "x", "ua"), now, None, None);
    rowCount := |table.rows|;
  }
}
