/**
 * The HRMS employee repository (server/repo.py): five operations over the
 * `Employee` table, which the repository reaches through a database session.
 *
 * The table is a sequence of rows in store order; the store's primary key is
 * the invariant that no two rows share an id. A commit that fails is rolled
 * back, so a failed `add_employee` leaves the table as it was.
 */
module EmployeeRepo {
  import opened Optional

  /** One row of the `Employee` table. */
  datatype Employee = Employee(id: int, name: string, jobTitle: string, salary: int)

  /** The two exceptions `add_employee` raises after its rollback. */
  datatype RepoError = EmployeeAlreadyExist | DatabaseError

  /** How `add_employee` ends: it returns normally, or it raises. */
  datatype Outcome = Pass | Fail(error: RepoError)

  /** What `add_employee` reports, and the table it leaves behind. */
  datatype AddStep = AddStep(outcome: Outcome, table: seq<Employee>)

  /** The primary-key invariant: no two rows share an id. */
  ghost predicate DistinctIds(rows: seq<Employee>)
  {
    forall i, j :: 0 <= i < j < |rows| ==> rows[i].id != rows[j].id
  }

  /** Some row carries this id. */
  predicate HasId(rows: seq<Employee>, id: int)
  {
    exists i | 0 <= i < |rows| :: rows[i].id == id
  }

  /** The position of the first row with this id, or |rows| when there is none. */
  function IndexOf(rows: seq<Employee>, id: int): (k: nat)
    ensures k <= |rows|
    ensures k < |rows| ==> rows[k].id == id
    ensures forall j :: 0 <= j < k ==> rows[j].id != id
  {
    if |rows| == 0 then 0
    else if rows[0].id == id then 0
    else 1 + IndexOf(rows[1..], id)
  }

  /** The number of rows with this id. */
  function CountId(rows: seq<Employee>, id: int): nat
  {
    if |rows| == 0 then 0
    else (if rows[0].id == id then 1 else 0) + CountId(rows[1..], id)
  }

  /** `query(Employee).filter_by(id = id).first()`: the first row with this id, or none. */
  function Find(rows: seq<Employee>, id: int): (r: Option<Employee>)
    ensures r.Some? <==> HasId(rows, id)
    ensures r.Some? ==> r.value in rows && r.value.id == id
  {
    var k := IndexOf(rows, id);
    if k < |rows| then Some(rows[k]) else None
  }

  /**
   * What the commit of an insert of `e` over `rows` reports. `storeFails` is
   * the store failing for a reason other than the key (connection lost, and
   * the like); such a store never gets as far as reporting a key conflict.
   */
  function CommitInsert(rows: seq<Employee>, e: Employee, storeFails: bool): Outcome
  {
    if storeFails then Fail(DatabaseError)
    else if HasId(rows, e.id) then Fail(EmployeeAlreadyExist)
    else Pass
  }

  /** `add_employee`: insert and commit; on a failed commit, roll back and raise. */
  function Add(rows: seq<Employee>, e: Employee, storeFails: bool): (step: AddStep)
    ensures step.outcome.Pass? ==> step.table == rows + [e]
    ensures step.outcome.Fail? ==> step.table == rows
    ensures step.outcome == Fail(DatabaseError) <==> storeFails
    ensures step.outcome == Fail(EmployeeAlreadyExist) <==> !storeFails && HasId(rows, e.id)
  {
    var outcome := CommitInsert(rows, e, storeFails);
    AddStep(outcome, if outcome.Pass? then rows + [e] else rows)
  }

  /** `update_employee`: overwrite the salary of the row search finds; nothing when there is none. */
  function SetSalary(rows: seq<Employee>, id: int, salary: int): (r: seq<Employee>)
    ensures |r| == |rows|
    ensures forall i :: 0 <= i < |rows| ==>
      r[i].id == rows[i].id && r[i].name == rows[i].name && r[i].jobTitle == rows[i].jobTitle
  {
    var k := IndexOf(rows, id);
    if k < |rows| then rows[k := rows[k].(salary := salary)] else rows
  }

  /** `delete_employee`: remove the row search finds; nothing when there is none. */
  function Remove(rows: seq<Employee>, id: int): (r: seq<Employee>)
    ensures |r| == if HasId(rows, id) then |rows| - 1 else |rows|
    ensures forall e :: e in r ==> e in rows
  {
    var k := IndexOf(rows, id);
    if k < |rows| then rows[..k] + rows[k + 1..] else rows
  }

  // ---------------------------------------------------------------------
  // Search
  // ---------------------------------------------------------------------

  /** Under the key invariant a row is found by its own id, and only rows are found. */
  lemma FindExactly(rows: seq<Employee>, e: Employee)
    requires DistinctIds(rows)
    ensures Find(rows, e.id) == Some(e) <==> e in rows
  {
  }

  // ---------------------------------------------------------------------
  // Add
  // ---------------------------------------------------------------------

  /** Appending a row adds one to the count of its id and leaves other counts alone. */
  lemma {:induction false} CountIdAppend(rows: seq<Employee>, e: Employee, id: int)
    ensures CountId(rows + [e], id) == CountId(rows, id) + (if e.id == id then 1 else 0)
  {
    if |rows| > 0 {
      assert (rows + [e])[1..] == rows[1..] + [e];
      CountIdAppend(rows[1..], e, id);
    }
  }

  /** An id no row carries has count zero. */
  lemma {:induction false} CountIdAbsent(rows: seq<Employee>, id: int)
    requires !HasId(rows, id)
    ensures CountId(rows, id) == 0
  {
    if |rows| > 0 {
      assert !HasId(rows[1..], id) by {
        forall i | 0 <= i < |rows[1..]| ensures rows[1..][i].id != id {
          assert rows[1..][i] == rows[i + 1];
        }
      }
      CountIdAbsent(rows[1..], id);
    }
  }

  /**
   * Adding a row whose id is new (and the store working) succeeds: the table
   * becomes the old one plus exactly this row, the key invariant still holds,
   * the row is found by its id, it is stored once, and every other lookup is
   * as before.
   */
  lemma AddFresh(rows: seq<Employee>, e: Employee)
    requires DistinctIds(rows)
    requires !HasId(rows, e.id)
    ensures Add(rows, e, false) == AddStep(Pass, rows + [e])
    ensures DistinctIds(rows + [e])
    ensures Find(rows + [e], e.id) == Some(e)
    ensures CountId(rows + [e], e.id) == 1
    ensures forall id :: id != e.id ==> Find(rows + [e], id) == Find(rows, id)
  {
    var t := rows + [e];
    assert DistinctIds(t) by {
      forall i, j | 0 <= i < j < |t| ensures t[i].id != t[j].id {
        if j == |rows| {
          assert t[i] == rows[i];
        }
      }
    }
    FindExactly(t, e);
    CountIdAbsent(rows, e.id);
    CountIdAppend(rows, e, e.id);
    forall id | id != e.id ensures Find(t, id) == Find(rows, id) {
      var k := IndexOf(rows, id);
      if k < |rows| {
        FindExactly(t, rows[k]);
      } else {
        assert !HasId(t, id) by {
          forall i | 0 <= i < |t| ensures t[i].id != id {
            if i < |rows| { assert t[i] == rows[i]; }
          }
        }
      }
    }
  }

  /**
   * Adding a second row with an id that is already stored fails (with the
   * duplicate error when the store itself works), and the table keeps the
   * first row only, once.
   */
  lemma AddTwiceSameId(rows: seq<Employee>, first: Employee, second: Employee, storeFails: bool)
    requires DistinctIds(rows)
    requires !HasId(rows, first.id)
    requires second.id == first.id
    ensures Add(Add(rows, first, false).table, second, storeFails).outcome
         == Fail(if storeFails then DatabaseError else EmployeeAlreadyExist)
    ensures Add(Add(rows, first, false).table, second, storeFails).table == rows + [first]
    ensures Find(rows + [first], first.id) == Some(first)
    ensures CountId(rows + [first], first.id) == 1
  {
    AddFresh(rows, first);
    var t := rows + [first];
    assert t[|rows|].id == second.id;
  }

  // ---------------------------------------------------------------------
  // Update
  // ---------------------------------------------------------------------

  /** Updating an id no row carries changes nothing. */
  lemma UpdateAbsent(rows: seq<Employee>, id: int, salary: int)
    requires !HasId(rows, id)
    ensures SetSalary(rows, id, salary) == rows
  {
  }

  /**
   * Updating a stored id sets that row's salary and nothing else: the row
   * keeps its id, name and job title and is found with the new salary,
   * every row with another id is untouched, and the key invariant holds.
   */
  lemma UpdatePresent(rows: seq<Employee>, id: int, salary: int)
    requires DistinctIds(rows)
    requires HasId(rows, id)
    ensures Find(SetSalary(rows, id, salary), id) == Some(Find(rows, id).value.(salary := salary))
    ensures forall i :: 0 <= i < |rows| && rows[i].id != id ==> SetSalary(rows, id, salary)[i] == rows[i]
    ensures DistinctIds(SetSalary(rows, id, salary))
  {
  }

  /** Repeating an update gives the same table. */
  lemma UpdateIdempotent(rows: seq<Employee>, id: int, salary: int)
    ensures SetSalary(SetSalary(rows, id, salary), id, salary) == SetSalary(rows, id, salary)
  {
  }

  // ---------------------------------------------------------------------
  // Delete
  // ---------------------------------------------------------------------

  /** Deleting an id no row carries changes nothing. */
  lemma DeleteAbsent(rows: seq<Employee>, id: int)
    requires !HasId(rows, id)
    ensures Remove(rows, id) == rows
  {
  }

  /**
   * Deleting a stored id removes exactly that row: the others stay, in their
   * order, the key invariant holds, and a later search finds nothing.
   */
  lemma DeletePresent(rows: seq<Employee>, id: int)
    requires DistinctIds(rows)
    requires HasId(rows, id)
    ensures Find(Remove(rows, id), id) == None
    ensures forall e :: e in Remove(rows, id) <==> e in rows && e.id != id
    ensures DistinctIds(Remove(rows, id))
    ensures exists k :: 0 <= k < |rows| && rows[k].id == id && Remove(rows, id) == rows[..k] + rows[k + 1..]
  {
  }

  /** A second delete of the same id changes nothing. */
  lemma DeleteIdempotent(rows: seq<Employee>, id: int)
    requires DistinctIds(rows)
    ensures Remove(Remove(rows, id), id) == Remove(rows, id)
  {
  }

  // ---------------------------------------------------------------------
  // The repository over a mutable table
  // ---------------------------------------------------------------------

  /** The table the session works on; each method commits its change or rolls it back. */
  class Repository {
    var rows: seq<Employee>

    ghost predicate Valid()
      reads this
    {
      DistinctIds(rows)
    }

    constructor ()
      ensures Valid() && rows == []
    {
      rows := [];
    }

    /** `read_all_employees`: every stored row, in store order; the table is only read. */
    function ReadAllEmployees(): (all: seq<Employee>)
      reads this
      ensures |all| == |rows| && forall i :: 0 <= i < |all| ==> all[i] == rows[i]
    {
      rows
    }

    /** `search_employee`: the row with this id, or none; absence is not an error. */
    function SearchEmployee(id: int): (found: Option<Employee>)
      reads this
      ensures found.None? <==> !HasId(rows, id)
      ensures found.Some? ==> found.value in rows && found.value.id == id
    {
      Find(rows, id)
    }

    /** `add_employee`: stage the row, commit, and roll back when the commit fails. */
    method AddEmployee(e: Employee, storeFails: bool) returns (outcome: Outcome)
      requires Valid()
      modifies this
      ensures Valid()
      ensures outcome == Add(old(rows), e, storeFails).outcome
      ensures rows == Add(old(rows), e, storeFails).table
    {
      var before := rows;
      rows := rows + [e];
      outcome := CommitInsert(before, e, storeFails);
      if outcome.Fail? {
        rows := before;
      } else {
        AddFresh(before, e);
      }
    }

    /** `update_employee`: look the row up; if present, overwrite its salary and commit. */
    method UpdateEmployee(id: int, salary: int)
      requires Valid()
      modifies this
      ensures Valid()
      ensures rows == SetSalary(old(rows), id, salary)
    {
      var oldEmployee := SearchEmployee(id);
      if oldEmployee.None? {
        return;
      }
      UpdatePresent(rows, id, salary);
      var k := IndexOf(rows, id);
      rows := rows[k := rows[k].(salary := salary)];
    }

    /** `delete_employee`: look the row up; if present, delete it and commit. */
    method DeleteEmployee(id: int)
      requires Valid()
      modifies this
      ensures Valid()
      ensures rows == Remove(old(rows), id)
    {
      var oldEmployee := SearchEmployee(id);
      if oldEmployee.None? {
        return;
      }
      DeletePresent(rows, id);
      var k := IndexOf(rows, id);
      rows := rows[..k] + rows[k + 1..];
    }
  }
}
