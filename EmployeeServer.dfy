/**
 * The server's `POST /employee` handler: look for an existing employee
 * with the submitted id or e-mail, refuse the request if there is one,
 * otherwise insert the submitted record.
 *
 * The `employees` table is a sequence of rows held by `EmployeeTable`.
 * Whether the existence query or the insert fails is not decided by the
 * model: the two outcomes are parameters of the handler. Requests are
 * handled one at a time.
 */
module EmployeeServer {
  import opened Wrappers

  /** A row of `employees`, in column order. */
  datatype Employee = Employee(
    employeeId: string,
    name: string,
    email: string,
    phone: string,
    department: string,
    dateOfJoining: string,
    role: string)

  /** An HTTP status with the `message` of the JSON body. */
  datatype Response = Response(status: nat, message: string)

  const DatabaseError := Response(500, "Database error")
  const AlreadyExists := Response(400, "Employee ID or Email already exists")
  const AddFailed := Response(500, "Failed to add employee")
  const Added := Response(200, "Employee added successfully!")

  /** The handler's four responses are pairwise different. */
  lemma ResponsesDistinct()
    ensures DatabaseError != AlreadyExists && DatabaseError != AddFailed && DatabaseError != Added
    ensures AlreadyExists != AddFailed && AlreadyExists != Added && AddFailed != Added
  {
  }

  /** `employee_id = ? OR email = ?`, with exact string equality. */
  predicate Conflicts(row: Employee, id: string, email: string) {
    row.employeeId == id || row.email == email
  }

  /** The rows the existence query returns, in table order. */
  function Matching(rows: seq<Employee>, id: string, email: string): (m: seq<Employee>)
    ensures |m| <= |rows|
    ensures forall r :: r in m ==> r in rows && Conflicts(r, id, email)
    ensures m == [] <==> forall i :: 0 <= i < |rows| ==> !Conflicts(rows[i], id, email)
  {
    if rows == [] then []
    else
      var last := rows[|rows| - 1];
      Matching(rows[..|rows| - 1], id, email) + (if Conflicts(last, id, email) then [last] else [])
  }

  /** No two rows share an id, and no two rows share an e-mail. */
  predicate Distinct(rows: seq<Employee>) {
    forall i, j :: 0 <= i < j < |rows| ==>
      rows[i].employeeId != rows[j].employeeId && rows[i].email != rows[j].email
  }

  /** Appending a record no row conflicts with keeps ids and e-mails distinct. */
  lemma InsertKeepsDistinct(rows: seq<Employee>, e: Employee)
    requires Distinct(rows)
    requires Matching(rows, e.employeeId, e.email) == []
    ensures Distinct(rows + [e])
  {
    var all := rows + [e];
    forall i, j | 0 <= i < j < |all|
      ensures all[i].employeeId != all[j].employeeId && all[i].email != all[j].email
    {
      if j == |rows| {
        assert !Conflicts(rows[i], e.employeeId, e.email);
      }
    }
  }

  /** The first row with the given id, the way a lookup by id reads the table back. */
  function FindById(rows: seq<Employee>, id: string): (r: Option<Employee>)
    ensures r.Some? ==> r.value in rows && r.value.employeeId == id
    ensures r.None? <==> forall i :: 0 <= i < |rows| ==> rows[i].employeeId != id
  {
    if rows == [] then None
    else if rows[0].employeeId == id then Some(rows[0])
    else FindById(rows[1..], id)
  }

  /** A record inserted after a passed check is what a lookup by its id returns. */
  lemma {:induction false} FindInserted(rows: seq<Employee>, e: Employee)
    requires Matching(rows, e.employeeId, e.email) == []
    ensures FindById(rows + [e], e.employeeId) == Some(e)
  {
    if rows != [] {
      assert !Conflicts(rows[0], e.employeeId, e.email);
      assert (rows + [e])[1..] == rows[1..] + [e];
      assert Matching(rows[1..], e.employeeId, e.email) == [] by {
        forall i | 0 <= i < |rows[1..]| ensures !Conflicts(rows[1..][i], e.employeeId, e.email) {
          assert rows[1..][i] == rows[i + 1];
        }
      }
      FindInserted(rows[1..], e);
    }
  }

  /** With distinct ids, every stored row is what a lookup by its id returns. */
  lemma {:induction false} FindStored(rows: seq<Employee>, i: nat)
    requires Distinct(rows)
    requires i < |rows|
    ensures FindById(rows, rows[i].employeeId) == Some(rows[i])
  {
    if i > 0 {
      assert rows[0].employeeId != rows[i].employeeId;
      assert Distinct(rows[1..]) by {
        forall a, b | 0 <= a < b < |rows[1..]|
          ensures rows[1..][a].employeeId != rows[1..][b].employeeId && rows[1..][a].email != rows[1..][b].email
        {
          assert rows[1..][a] == rows[a + 1] && rows[1..][b] == rows[b + 1];
        }
      }
      FindStored(rows[1..], i - 1);
    }
  }

  class EmployeeTable {
    var rows: seq<Employee>

    constructor ()
      ensures rows == []
    {
      rows := [];
    }

    /** `SELECT * FROM employees WHERE employee_id = ? OR email = ?`. */
    method Select(id: string, email: string) returns (results: seq<Employee>)
      ensures results == Matching(rows, id, email)
    {
      results := [];
      var i := 0;
      while i < |rows|
        invariant 0 <= i <= |rows|
        invariant results == Matching(rows[..i], id, email)
      {
        assert rows[..i + 1][..i] == rows[..i];
        if rows[i].employeeId == id || rows[i].email == email {
          results := results + [rows[i]];
        }
        i := i + 1;
      }
      assert rows[..i] == rows;
    }

    /**
     * `POST /employee`: a failed query answers "Database error"; a query
     * that finds a row answers "already exists"; otherwise the record is
     * inserted, answering "Failed to add employee" if the insert fails and
     * "Employee added successfully!" if it succeeds. Only a successful
     * insert changes the table, by exactly the submitted record, which is
     * stored as it came: the handler checks no field's format.
     */
    method PostEmployee(body: Employee, queryFails: bool, insertFails: bool) returns (res: Response)
      modifies this
      ensures queryFails ==> res == DatabaseError && rows == old(rows)
      ensures !queryFails && Matching(old(rows), body.employeeId, body.email) != [] ==>
        res == AlreadyExists && rows == old(rows)
      ensures !queryFails && Matching(old(rows), body.employeeId, body.email) == [] && insertFails ==>
        res == AddFailed && rows == old(rows)
      ensures !queryFails && Matching(old(rows), body.employeeId, body.email) == [] && !insertFails ==>
        res == Added && rows == old(rows) + [body]
      ensures Distinct(old(rows)) ==> Distinct(rows)
    {
      if queryFails {
        return DatabaseError;
      }
      var results := Select(body.employeeId, body.email);
      if |results| > 0 {
        return AlreadyExists;
      }
      if insertFails {
        return AddFailed;
      }
      if Distinct(rows) {
        InsertKeepsDistinct(rows, body);
      }
      rows := rows + [Employee(body.employeeId, body.name, body.email, body.phone,
                               body.department, body.dateOfJoining, body.role)];
      res := Added;
    }
  }

  /**
   * Two requests in a row: the first record is added, a second one reusing
   * its id with another e-mail is refused, and a record with a malformed
   * e-mail and an empty name is added as it is.
   */
  method IntakeScenario() returns (first: Response, second: Response, third: Response)
    ensures first == Added && second == AlreadyExists && third == Added
  {
    var table := new EmployeeTable();
    var ada := Employee("101", "Ada Lovelace", "ada@example.com", "9876543210", "Engineering", "2024-01-10", "Engineer");
    first := table.PostEmployee(ada, false, false);
    second := table.PostEmployee(ada.(email := "lovelace@example.com"), false, false);
    assert table.rows == [ada];
    var odd := Employee("102", "", "not-an-email", "1", "", "", "");
    third := table.PostEmployee(odd, false, false);
  }
}
