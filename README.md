# Employee records: repository and toy lookup server

This project models the two small employee-record components of the
repository and proves what they promise.

- **The HRMS employee repository** (`days/251106/hrms_erich/server/repo.py`),
  module `EmployeeRepo` in `employee_repo.dfy`. It offers five operations over
  the `Employee` table: read all, add, search by id, update salary, and delete.
  Each row is (id, name, job title, salary). The table is a `Repository`
  object whose field `rows` holds the rows in store order. Its invariant
  `Valid()` is the store's primary key: no two rows share an id. Each mutating
  method is a `modifies this` method. It ensures that the new `rows` equals a
  specification function of the old rows (`Add`, `SetSalary`, `Remove`). The
  lemmas beside those functions prove the promises: the key invariant is kept,
  the right row is touched and no other, absent ids are no-ops, update and
  delete are idempotent, and a failed add leaves the table unchanged.
  `add_employee`'s exceptions are an `Outcome`: `Pass`, or
  `Fail(EmployeeAlreadyExist)` / `Fail(DatabaseError)`. The commit-or-rollback
  is written out in `AddEmployee`: it stages the row, asks `CommitInsert` what
  the commit reports, and restores the old table on failure.
- **The toy employee server** (`days/251105/fake_emp_server.py`), module
  `FakeEmpServer` in `emp_server.dfy`. It holds the `employees` list and two
  routes. Read-all returns the list. The lookup is a `for` loop that keeps the
  first record whose id matches and `break`s. `ReadEmployeeById` is that
  loop, and it is proved equal to the reference function `FirstWithId`. The
  lemmas show that the first match wins and that later records are ignored.
  `None` is the not-found outcome that the server answers with HTTP 404.

`optional.dfy` holds the `Option` type both modules use for Python's `None`.

Modelling choices:

- **Store order.** Rows are kept in insertion order, and a successful add
  appends. The relational store promises no order. Under the key invariant
  every search, update and delete result is independent of the order.
- **The "other storage error".** Any `SQLAlchemyError` that is not an
  `IntegrityError` is the boolean input `storeFails`. When it is set, the add
  fails with `DatabaseError` even if the id is also a duplicate. A store that
  cannot be reached never gets as far as reporting a key conflict.
- **Which row update and delete touch.** They act on the first row with the
  id, which is the object `search_employee` returns. Under the key invariant
  it is the only such row.
- **The server's list.** Both routes take the server's list as a value, and
  the constant `Employees` is its initial contents. Neither route can change
  the list. A matched record always holds its `id`, so it is never the empty
  dict, and the `if not queried_employee` test fails exactly when nothing
  matched.

## Model

| member | source | states |
|---|---|---|
| `EmployeeRepo.Repository.ReadAllEmployees` | days/251106/hrms_erich/server/repo.py:6-9 | returns every stored row, in store order; as a function it only reads the table |
| `EmployeeRepo.IndexOf` | days/251106/hrms_erich/server/repo.py:26 | the position it returns is the first row carrying the id (every earlier row has another id), or the table length when no row has it |
| `EmployeeRepo.Find` | days/251106/hrms_erich/server/repo.py:25-28 | the lookup returns a row exactly when some row has the id, and a returned row is in the table and has that id |
| `EmployeeRepo.Repository.SearchEmployee` | days/251106/hrms_erich/server/repo.py:25-28 | search on the current table returns none exactly when no row has the id (absence is not an error), else a stored row with that id; it only reads the table |
| `EmployeeRepo.FindExactly` | days/251106/hrms_erich/server/repo.py:26 | under the key invariant, searching a row's id returns that very row, and a search returns only rows that are stored |
| `EmployeeRepo.Add` | days/251106/hrms_erich/server/repo.py:11-23 | add succeeds and appends the row, or fails and leaves the table unchanged; it fails with the database error exactly when the store fails, and with the duplicate error exactly when the store works and the id is already stored |
| `EmployeeRepo.Repository.AddEmployee` | days/251106/hrms_erich/server/repo.py:11-23 | stages the row, commits, rolls back on failure; its outcome and new table are those of `Add`, and the key invariant is kept |
| `EmployeeRepo.AddFresh` | days/251106/hrms_erich/server/repo.py:11-15 | adding a new id with a working store passes; the table becomes the old one plus exactly this row, the key invariant still holds, the row is found by its id and stored exactly once, and every other id's lookup is unchanged |
| `EmployeeRepo.AddTwiceSameId` | days/251106/hrms_erich/server/repo.py:16-23 | adding a second row with the id of one just added fails (duplicate error when the store works, database error otherwise); the table keeps the first row, found by its id, exactly once |
| `EmployeeRepo.SetSalary` | days/251106/hrms_erich/server/repo.py:30-39 | update keeps the table's length and every row's id, name and job title |
| `EmployeeRepo.UpdateAbsent` | days/251106/hrms_erich/server/repo.py:31-35 | updating an id no row carries leaves the table unchanged |
| `EmployeeRepo.UpdatePresent` | days/251106/hrms_erich/server/repo.py:37-39 | updating a stored id makes search return the old row with the new salary; every row with another id is untouched; the key invariant holds |
| `EmployeeRepo.UpdateIdempotent` | days/251106/hrms_erich/server/repo.py:30-39 | repeating an update with the same id and salary gives the same table |
| `EmployeeRepo.Repository.UpdateEmployee` | days/251106/hrms_erich/server/repo.py:30-39 | looks the row up, returns if absent, else overwrites its salary in place; the new table is `SetSalary` of the old one and the key invariant is kept |
| `EmployeeRepo.Remove` | days/251106/hrms_erich/server/repo.py:41-50 | delete shortens the table by one exactly when the id is stored (else keeps its length) and introduces no row |
| `EmployeeRepo.DeleteAbsent` | days/251106/hrms_erich/server/repo.py:42-46 | deleting an id no row carries leaves the table unchanged |
| `EmployeeRepo.DeletePresent` | days/251106/hrms_erich/server/repo.py:48-50 | deleting a stored id removes exactly that row: the result is the table with the row at that id's position cut out (the others keep their order), a row stays iff it has another id, the key invariant holds, and a later search finds nothing |
| `EmployeeRepo.DeleteIdempotent` | days/251106/hrms_erich/server/repo.py:41-50 | a second delete of the same id changes nothing |
| `EmployeeRepo.Repository.DeleteEmployee` | days/251106/hrms_erich/server/repo.py:41-50 | looks the row up, returns if absent, else removes it; the new table is `Remove` of the old one and the key invariant is kept |
| `FakeEmpServer.ReadAllEmployee` | days/251105/fake_emp_server.py:10-12 | returns every record of the list, in list order |
| `FakeEmpServer.FirstWithId` | days/251105/fake_emp_server.py:17-23 | the lookup returns none exactly when no record has the id; a returned record is in the list and has the id |
| `FakeEmpServer.ReadEmployeeById` | days/251105/fake_emp_server.py:15-24 | the search loop returns `FirstWithId` of the list; a found record has the queried id and is in the list; not-found (HTTP 404) exactly when no record has the id |
| `FakeEmpServer.FirstMatchWins` | days/251105/fake_emp_server.py:18-21 | the lookup returns the record at the first position whose id matches |
| `FakeEmpServer.LaterRecordsIgnored` | days/251105/fake_emp_server.py:18-21 | once a prefix of the list holds a match, appending more records does not change the result |
| `FakeEmpServer.StartingListLookups` | days/251105/fake_emp_server.py:5-8 | on the initial list, 101 finds Abhishek, 102 finds Dravid, and every other id is not found |

## Left out

- Logging in `repo.py` is left out: it is a side effect with nothing to state.
- The text of the error messages is left out; only which error is raised is modelled. Line 19 formats its message with `employee['id']`. Whether the ORM object supports subscripting depends on `server/models.py`, which is not part of this model.
- The session, query, commit and rollback machinery of SQLAlchemy is left out. For `add_employee` it is replaced by the table value and "a failed commit restores the old table"; that rollback exists only in `add_employee`.
- EmployeeRepo.Repository.UpdateEmployee and EmployeeRepo.Repository.DeleteEmployee always succeed in the model. In the source their query and commit (repo.py lines 26, 38 and 49) can raise an untranslated `SQLAlchemyError` straight to the caller, with no rollback, leaving the changed salary or the pending delete in the session. That failure path is not modelled.
- EmployeeRepo.Repository.ReadAllEmployees and EmployeeRepo.Repository.SearchEmployee return rows as values. In the source they return live session objects, so the salary write of `update_employee` is also seen by any caller still holding that object. This sharing is not modelled.
- `EmployeeRepo.CommitInsert` reports every `IntegrityError` as a duplicate id, as the source does. The model's rows have no other constraint that could fail, so the only integrity error it produces is a repeated id.
- `storeFails` is an input, not a nondeterministic choice of the store. Transaction isolation and concurrent callers are not modelled.
- Salaries are unbounded integers. The source accepts any Python number; floating-point salaries are not modelled.
- `EmployeeNotFoundError` is imported by `repo.py` but never raised, so it has no counterpart.
- Flask routing, `jsonify`, the 404 response body and status, and `application.run` are left out: they are framework I/O. The not-found outcome is `None`.
- The `int(emp_id)` parse of the URL segment is left out; the id is an integer input.
- The email sender, the console and text-file exercises, and the discussion notes are not part of this model. They hold no logic beyond library calls and I/O.
