/**
 The `User` table the authentication service reads and writes, in memory:
 the rows in insertion order, the unique constraint on `userName`, and the
 three calls the service makes (`User.create`, `User.findOne` by user name,
 and `user.save()` on an instance it found).

 Failures of the database other than the unique constraint (connectivity,
 serialisation, ...) cannot be predicted from the model's state; each call
 takes them as a parameter, `None` meaning the database did not fail.
 */
module UserStore {
  import opened LoginHistory

  datatype Option<T> = None | Some(value: T)

  /** A stored user. `loginHistory` is a JSON column and may be null, shown as `None`. */
  datatype UserRow = UserRow(
    userName: string,
    password: string,
    email: string,
    loginHistory: Option<seq<LoginEvent>>)

  /** No two rows share a user name: the unique constraint on the column. */
  ghost predicate UniqueNames(rows: seq<UserRow>)
  {
    forall i, j :: 0 <= i < j < |rows| ==> rows[i].userName != rows[j].userName
  }

  /** The history of a row bounded by the cap (a null history is bounded). */
  predicate HistoryBounded(row: UserRow)
  {
    row.loginHistory.Some? ==> |row.loginHistory.value| <= Capacity
  }

  ghost predicate HistoriesBounded(rows: seq<UserRow>)
  {
    forall i :: 0 <= i < |rows| ==> HistoryBounded(rows[i])
  }

  /** The index of the first row named `name`, the row `findOne` returns. */
  function Position(rows: seq<UserRow>, name: string): (r: Option<nat>)
    ensures r.Some? ==> r.value < |rows| && rows[r.value].userName == name
    ensures r.Some? ==> forall j :: 0 <= j < r.value ==> rows[j].userName != name
    ensures r.None? <==> forall j :: 0 <= j < |rows| ==> rows[j].userName != name
  {
    if rows == [] then None
    else if rows[0].userName == name then Some(0)
    else match Position(rows[1..], name)
         case None => None
         case Some(k) => Some(k + 1)
  }

  /** With unique names, the row named `name` is the only one with that name. */
  lemma PositionIsTheOnlyMatch(rows: seq<UserRow>, name: string, j: nat)
    requires UniqueNames(rows)
    requires j < |rows| && rows[j].userName == name
    ensures Position(rows, name) == Some(j)
  {
  }

  /** The number of rows named `name`. */
  function CountNamed(rows: seq<UserRow>, name: string): nat
  {
    if rows == [] then 0
    else (if rows[0].userName == name then 1 else 0) + CountNamed(rows[1..], name)
  }

  /** Under the unique constraint a name labels at most one row, and exactly one when present. */
  lemma {:induction false} AtMostOneRowPerName(rows: seq<UserRow>, name: string)
    requires UniqueNames(rows)
    ensures CountNamed(rows, name) <= 1
    ensures CountNamed(rows, name) == 1 <==> Position(rows, name).Some?
  {
    if rows != [] {
      assert UniqueNames(rows[1..]) by {
        forall i, j | 0 <= i < j < |rows[1..]| ensures rows[1..][i].userName != rows[1..][j].userName {
          assert rows[1..][i] == rows[i + 1] && rows[1..][j] == rows[j + 1];
        }
      }
      AtMostOneRowPerName(rows[1..], name);
      if rows[0].userName == name {
        assert Position(rows[1..], name).None? by {
          forall j | 0 <= j < |rows[1..]| ensures rows[1..][j].userName != name {
            assert rows[1..][j] == rows[j + 1];
          }
        }
      }
    }
  }

  /** Appending a row whose name is absent keeps the names unique. */
  lemma AppendFreshKeepsUnique(rows: seq<UserRow>, row: UserRow)
    requires UniqueNames(rows)
    requires Position(rows, row.userName).None?
    ensures UniqueNames(rows + [row])
  {
    var r := rows + [row];
    forall i, j | 0 <= i < j < |r| ensures r[i].userName != r[j].userName {
      if j == |rows| {
        assert r[i] == rows[i];
      }
    }
  }

  /** A Sequelize model instance: a mutable in-memory copy of one row. */
  class UserInstance {
    var userName: string
    var password: string
    var email: string
    var loginHistory: Option<seq<LoginEvent>>

    /** The row this instance would persist. */
    function Row(): UserRow
      reads this
    {
      UserRow(userName, password, email, loginHistory)
    }

    constructor (row: UserRow)
      ensures Row() == row
    {
      userName, password, email, loginHistory :=
        row.userName, row.password, row.email, row.loginHistory;
    }
  }

  datatype CreateOutcome =
    | Created
    | UniqueViolation              // SequelizeUniqueConstraintError
    | CreateFailed(message: string) // any other database error

  datatype FindOutcome =
    | Found(user: UserInstance)
    | NotFound
    | FindFailed(message: string)

  class UserTable {
    var rows: seq<UserRow>

    ghost predicate Valid()
      reads this
    {
      UniqueNames(rows)
    }

    constructor ()
      ensures Valid() && rows == []
    {
      rows := [];
    }

    /** The index of the row named `name`, by a scan of the table. */
    method Locate(name: string) returns (r: Option<nat>)
      ensures r == Position(rows, name)
    {
      var i := 0;
      while i < |rows|
        invariant 0 <= i <= |rows|
        invariant forall j :: 0 <= j < i ==> rows[j].userName != name
      {
        if rows[i].userName == name {
          assert Position(rows, name) == Some(i) by {
            var p := Position(rows, name);
            assert p.Some?;
            assert !(p.value < i);
            assert !(i < p.value);
          }
          return Some(i);
        }
        i := i + 1;
      }
      return None;
    }

    /**
     `User.create`: insert `row`, unless its name is taken; a database failure
     inserts nothing.
     */
    method Create(row: UserRow, fault: Option<string>) returns (outcome: CreateOutcome)
      requires Valid()
      modifies this
      ensures Valid()
      ensures Position(old(rows), row.userName).Some? ==> outcome == UniqueViolation
      ensures Position(old(rows), row.userName).None? && fault.Some? ==>
                outcome == CreateFailed(fault.value)
      ensures Position(old(rows), row.userName).None? && fault.None? ==> outcome == Created
      ensures outcome == Created ==> rows == old(rows) + [row]
      ensures outcome != Created ==> rows == old(rows)
    {
      var existing := Locate(row.userName);
      if existing.Some? {
        return UniqueViolation;
      }
      if fault.Some? {
        return CreateFailed(fault.value);
      }
      AppendFreshKeepsUnique(rows, row);
      rows := rows + [row];
      return Created;
    }

    /** `User.findOne({ where: { userName: name } })`: a fresh copy of the row. */
    method FindOne(name: string, fault: Option<string>) returns (outcome: FindOutcome)
      ensures fault.Some? ==> outcome == FindFailed(fault.value)
      ensures fault.None? && Position(rows, name).None? ==> outcome == NotFound
      ensures fault.None? && Position(rows, name).Some? ==>
                outcome.Found? && fresh(outcome.user) &&
                outcome.user.Row() == rows[Position(rows, name).value]
    {
      if fault.Some? {
        return FindFailed(fault.value);
      }
      var i := Locate(name);
      if i.None? {
        return NotFound;
      }
      var user := new UserInstance(rows[i.value]);
      return Found(user);
    }

    /**
     `user.save()`: overwrite the stored row of the same name with the
     instance's fields. `Some(e)` reports a database failure, which writes nothing.
     */
    method Save(user: UserInstance, fault: Option<string>) returns (error: Option<string>)
      requires Valid()
      modifies this
      ensures Valid()
      ensures error == fault
      ensures fault.None? && Position(old(rows), user.userName).Some? ==>
                rows == old(rows)[Position(old(rows), user.userName).value := user.Row()]
      ensures fault.Some? || Position(old(rows), user.userName).None? ==> rows == old(rows)
    {
      if fault.Some? {
        return fault;
      }
      var i := Locate(user.userName);
      if i.Some? {
        rows := rows[i.value := user.Row()];
      }
      return None;
    }
  }
}
