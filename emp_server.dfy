/**
 * The toy employee server (fake_emp_server.py): an in-memory list of
 * employee records, a route that returns the whole list, and a route that
 * looks one record up by id with a linear search that stops at the first
 * match. An absent record is the not-found outcome, which the server sends
 * as HTTP 404.
 *
 * The routes only read the list, so the list is passed in as a value: no
 * route can change it.
 */
module FakeEmpServer {
  import opened Optional

  /** One entry of the `employees` list. */
  datatype Record = Record(id: int, name: string)

  /** The `employees` list the server is started with. */
  const Employees: seq<Record> := [Record(101, "Abhishek"), Record(102, "Dravid")]

  /** `read_all_employee`: the whole list, every record in list order. */
  function ReadAllEmployee(employees: seq<Record>): (all: seq<Record>)
    ensures |all| == |employees| && forall i :: 0 <= i < |all| ==> all[i] == employees[i]
  {
    employees
  }

  /**
   * Reference definition of the lookup: the first record in list order whose
   * id is `id`, or none when no record has it.
   */
  function FirstWithId(employees: seq<Record>, id: int): (r: Option<Record>)
    ensures r.Some? ==> r.value in employees && r.value.id == id
    ensures r.None? <==> forall i :: 0 <= i < |employees| ==> employees[i].id != id
  {
    if |employees| == 0 then None
    else if employees[0].id == id then Some(employees[0])
    else FirstWithId(employees[1..], id)
  }

  /** The record at the first position carrying `id` is the one the lookup returns. */
  lemma {:induction false} FirstMatchWins(employees: seq<Record>, id: int, i: nat)
    requires i < |employees| && employees[i].id == id
    requires forall j :: 0 <= j < i ==> employees[j].id != id
    ensures FirstWithId(employees, id) == Some(employees[i])
  {
    if i > 0 {
      FirstMatchWins(employees[1..], id, i - 1);
    }
  }

  /** Records after the first match do not affect what the lookup returns. */
  lemma {:induction false} LaterRecordsIgnored(front: seq<Record>, back: seq<Record>, id: int)
    requires FirstWithId(front, id).Some?
    ensures FirstWithId(front + back, id) == FirstWithId(front, id)
  {
    assert |front| > 0;
    if front[0].id != id {
      assert (front + back)[1..] == front[1..] + back;
      LaterRecordsIgnored(front[1..], back, id);
    }
  }

  /**
   * The search loop of `read_employee_by_id`: scan the list, keep the first
   * record whose id matches and stop there; `None` is the not-found outcome.
   */
  method ReadEmployeeById(employees: seq<Record>, empId: int) returns (queried: Option<Record>)
    ensures queried == FirstWithId(employees, empId)
    ensures queried.Some? ==> queried.value.id == empId && queried.value in employees
    ensures queried.None? <==> forall i :: 0 <= i < |employees| ==> employees[i].id != empId
  {
    queried := None;
    for i := 0 to |employees|
      invariant queried == None
      invariant forall j :: 0 <= j < i ==> employees[j].id != empId
    {
      if employees[i].id == empId {
        queried := Some(employees[i]);
        FirstMatchWins(employees, empId, i);
        break;
      }
    }
  }

  /** On the list the server starts with, ids 101 and 102 are found and every other id is not. */
  lemma StartingListLookups(id: int)
    ensures FirstWithId(Employees, 101) == Some(Record(101, "Abhishek"))
    ensures FirstWithId(Employees, 102) == Some(Record(102, "Dravid"))
    ensures id != 101 && id != 102 ==> FirstWithId(Employees, id) == None
  {
  }
}
