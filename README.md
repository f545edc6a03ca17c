# Shift allocator: a Dafny model of `assign_employees`

This project models the allocation step of a small Django staff-rostering
application. The employees whose status is exactly `"available"` are taken in
a random order. They are handed out to the departments in table order: each
department takes the next `capacity` employees of what is left, or all of
them when fewer remain. Every employee handed out gains that department in
its many-to-many `department` relation. The function returns a dictionary
from department name to the `"First Last"` display names of the employees
the department received.

Files:

- `models.dfy` (module `Models`): the records of `models.py` as datatypes
  (`Department`, `Employee`, `Shift`, `Assignment`), the five status codes,
  the `__str__` renderings, and the membership relation as a class
  `Membership` whose `Add` extends one employee's set of departments.
- `partition.dfy` (module `Partition`): the pure specification of the split.
  `Slices(queue, caps)` cuts one slice per capacity from the front of the
  queue, with Python's slicing semantics (`Take`, `Drop`). `Leftover` is what
  remains. The lemmas give each slice in closed form and prove the prefix,
  suffix, capacity and total-count properties.
- `allocation.dfy` (module `Allocation`): the status filter, the imperative
  `AssignEmployees` method (a loop over the departments that keeps the
  remaining queue, the result map and the membership relation, with an inner
  loop `AddDepartment` over the employees it chose), the functions `Results`
  and `Enrolled` that specify its result and its effect on the memberships,
  and lemmas about the whole run.

The random `order_by('?')` is an input. `shuffled` is any ordering of the
available rows in which each appears once (`IsShuffleOf`).

What the code of `assign_employees` does, and the model with it:

- Every department takes one slice of the shuffled queue, once, in table
  order. The run reads nothing about earlier runs.
- Memberships are never cleared before a run, so they only grow.
- The status filter `filter(status="available")` is an exact match with the
  string `"available"`. Whether the database also lets `"Available"` through
  depends on its collation; the model takes the match as exact.
- A capacity of 0 is accepted. Such a department still gets a key in the
  result, with an empty list.
- The result is keyed by department name. Its values are the employees'
  `"First Last"` display names.

## Model

| member | source | states |
|---|---|---|
| `Models.FromCode` | projekt_koncowy/employees/models.py:14-22 | reading a stored status is the inverse of the five choice codes: it gives `Some(s)` exactly when `c` is the code of `s`, and `None` for any other string |
| `Models.Code` | projekt_koncowy/employees/models.py:14-22 | each choice is stored as a non-empty code that fits the column's 20 characters, and only the `available` choice is stored as `"available"` |
| `Models.Display` | projekt_koncowy/employees/models.py:27-28 | an employee renders as its first name, one space, then its last name: the first name is the prefix, the last name the suffix |
| `Models.DepartmentDisplay` | projekt_koncowy/employees/models.py:7-8 | a department renders as its name |
| `Models.ShiftDisplay` | projekt_koncowy/employees/models.py:36-37 | a shift renders as its name |
| `Models.NewEmployee` | projekt_koncowy/employees/models.py:23 | an employee created without a status reads back as the default choice, `available` |
| `Models.DisplayRoundTrip` | projekt_koncowy/employees/models.py:27-28 | the `"First Last"` rendering splits back at its first space into the first and last name when the first name holds no space |
| `Models.AssignmentDisplay` | projekt_koncowy/employees/models.py:46-47 | an assignment renders as the employee's own rendering, the shift's, the date and the department's name, so it starts with the employee's display string and ends with the department name |
| `Models.Membership.Add` | projekt_koncowy/employees/models.py:13 | adding a department to an employee adds exactly that department to its set; every other employee's set is unchanged |
| `Partition.Take` | projekt_koncowy/employees/utils.py:15 | `employees[:k]` is the first `min(k, n)` elements |
| `Partition.Drop` | projekt_koncowy/employees/utils.py:16 | `employees[k:]` is everything after the first `min(k, n)` elements |
| `Partition.Slices` | projekt_koncowy/employees/utils.py:13-16 | one list per department, each `Take` of the queue the earlier departments left; its properties are the lemmas below |
| `Partition.Leftover` | projekt_koncowy/employees/utils.py:16 | the queue once every department has taken its slice; described by `LeftoverIsSuffix` |
| `Partition.SlicesSnoc` | projekt_koncowy/employees/utils.py:13-16 | handling one more department appends the next slice of the remaining queue and shortens the queue by that slice |
| `Partition.SliceFromLeftover` | projekt_koncowy/employees/utils.py:14-16 | department i's slice is cut from exactly the queue the earlier departments left |
| `Partition.LeftoverIsSuffix` | projekt_koncowy/employees/utils.py:16 | the queue left after all departments is the queue with its first `Sum(caps)` elements dropped (all of them when it is shorter) |
| `Partition.DropDrop` | projekt_koncowy/employees/utils.py:16 | dropping `b` elements from what is left after dropping `a` leaves the same as dropping `a + b` at once |
| `Partition.SliceAt` | projekt_koncowy/employees/utils.py:14-16 | department i receives exactly the elements at positions from the sum of the earlier capacities up to `caps[i]` further, cut at the end of the queue |
| `Partition.SliceElement` | projekt_koncowy/employees/utils.py:15 | each element of slice i is the queue element at its position, and positions of slice i lie below the start of slice i + 1 |
| `Partition.StartMonotone` | projekt_koncowy/employees/utils.py:13-16 | later departments start no earlier in the queue than earlier ones |
| `Partition.SliceLength` | projekt_koncowy/employees/utils.py:14-15 | department i's list has length `min(capacity, remaining queue)`, so it never exceeds the capacity |
| `Partition.SlicesCover` | projekt_koncowy/employees/utils.py:15-16 | the lists concatenated in department order, followed by the remaining queue, give back the shuffled queue: the placed employees form a prefix |
| `Partition.PlacedCount` | projekt_koncowy/employees/utils.py:13-16 | the number placed is `min(n, sum of capacities)` and the remaining queue holds the other `n - placed` |
| `Partition.AllPlacedWhenRoom` | projekt_koncowy/employees/utils.py:13-16 | when the capacities add up to at least n, every queued employee is placed and nothing is left |
| `Partition.InFlatten` | projekt_koncowy/employees/utils.py:22 | an employee in one department's list is among the placed employees |
| `Allocation.IsCandidate` | projekt_koncowy/employees/utils.py:9 | a row is a candidate exactly when its stored status equals `"available"`; related to the choices by `CandidateIffAvailable` |
| `Allocation.Names` | projekt_koncowy/employees/utils.py:22 | the list has one display name per employee received, the k-th being the k-th employee's `"First Last"` |
| `Allocation.Results` | projekt_koncowy/employees/utils.py:11-22 | the result dictionary, written one department at a time so that a later equal name overwrites; described by `ResultKeys`, `ResultEntry` and `ResultSize` |
| `Allocation.AddToAll` | projekt_koncowy/employees/utils.py:18-20 | the memberships after adding one department to each employee of a list; reached step by step by `AddDepartment` |
| `Allocation.Enrolled` | projekt_koncowy/employees/utils.py:13-20 | the memberships after every department has enrolled its list; described by the `Enrolled*` lemmas |
| `Allocation.DepartmentsRenderApart` | projekt_koncowy/employees/models.py:4-8 | with unique names, two departments of the table never render alike |
| `Allocation.AvailableStaff` | projekt_koncowy/employees/utils.py:9 | the filter keeps exactly the rows whose status is `"available"`, never more rows than the table has, and keeps ids distinct |
| `Allocation.CandidateIffAvailable` | projekt_koncowy/employees/utils.py:9 | a row passes the filter exactly when its status reads as the `available` choice |
| `Allocation.ShuffleLength` | projekt_koncowy/employees/utils.py:9 | the shuffled queue holds as many employees as the table has available rows |
| `Allocation.AddDepartment` | projekt_koncowy/employees/utils.py:18-20 | adding the department to each chosen employee in turn gives the memberships `AddToAll` describes |
| `Allocation.RunStep` | projekt_koncowy/employees/utils.py:13-22 | one department's turn takes the next slice, writes its result entry and enrolls the slice |
| `Allocation.AssignEmployees` | projekt_koncowy/employees/utils.py:5-24 | the run returns `Results` of the departments and the slices of the shuffled queue, and leaves the memberships as `Enrolled` of the old ones |
| `Allocation.ResultKeys` | projekt_koncowy/employees/utils.py:11-22 | the result's keys are exactly the department names, even for an empty list; no departments give an empty map |
| `Allocation.ResultEntry` | projekt_koncowy/employees/utils.py:22 | with unique names, a department's entry is the display names of the employees it received, in queue order |
| `Allocation.ResultSize` | projekt_koncowy/employees/models.py:4 | with unique names the result has one entry per department, so no two departments are merged |
| `Allocation.EnrolledGrows` | projekt_koncowy/employees/utils.py:18-20 | memberships only grow |
| `Allocation.EnrolledUntouched` | projekt_koncowy/employees/utils.py:18-20 | an employee in none of the lists keeps its memberships |
| `Allocation.EnrolledPlaced` | projekt_koncowy/employees/utils.py:18-20 | an employee in exactly one list gains exactly that department |
| `Allocation.PlacedAreCandidates` | projekt_koncowy/employees/utils.py:9 | every placed employee is a row of the table whose status is `"available"` |
| `Allocation.PlacedOnce` | projekt_koncowy/employees/utils.py:15-16 | no employee id appears twice among the lists, within one department or across two |
| `Allocation.IdsDisjoint` | projekt_koncowy/employees/utils.py:15-16 | two departments' lists share no employee |
| `Allocation.PlacedGainsDepartment` | projekt_koncowy/employees/utils.py:18-20 | after the run, an employee placed in department i has its old memberships plus department i and nothing else |
| `Allocation.UnplacedKeepsMemberships` | projekt_koncowy/employees/utils.py:18-20 | after the run, an employee that was not placed keeps exactly its old memberships, whatever its status |
| `Allocation.NonCandidatesNeverPlaced` | projekt_koncowy/employees/utils.py:9 | a row whose status is not exactly `"available"` is never placed |
| `Allocation.PlacedTotal` | projekt_koncowy/employees/utils.py:13-16 | with n available employees, `min(n, sum of capacities)` are placed and the other employees stay unplaced |
| `Allocation.ReshuffledSlices` | projekt_koncowy/employees/utils.py:9-16 | the slices as the lazy queries compute them, each from its own random ordering at the offset the earlier departments consumed; each still respects its department's capacity |
| `Allocation.ReshuffleCanPlaceTwice` | projekt_koncowy/employees/utils.py:9-16 | when each slice's query reorders the employees, one employee can be placed in two departments; the fixed-list split places them once each |

## Left out

- IsCandidate: compares the stored status with `"available"` exactly. A database whose collation ignores case would also pass `"Available"`, and that is not modelled.
- Database access (`Department.objects.all()`, `filter`, `save`) is not modelled. The tables are sequences and the membership relation is a map held by `Membership`.
- The randomness of `order_by('?')` is not modelled. The order is an input, constrained only to list each available row once.
- Negative capacities are excluded by a precondition, because queryset slicing rejects negative bounds. The exception raised in that case is not modelled.
- `AssignEmployees` models a queue that is fixed once shuffled. The code's lazy re-evaluation of the sliced queries is modelled only by `ReshuffledSlices` and its example (see Findings).
- Employee display names are not shown to be unique. Two employees can render alike, so the result's values do not identify employees.
- `hire_date`, the shift's start and end times, and the labels of the status choices are not modelled: the allocator never reads them.
- The date in an assignment's rendering is taken as already-rendered text. Python's date formatting is not part of this model.
- The request handlers, URL routing, forms, admin registration and data-seeding script are not modelled. They contain no allocation logic.

## Findings

| source | as written | input that shows it | evidently intended | confidence | as-written member | corrected member |
|---|---|---|---|---|---|---|
| projekt_koncowy/employees/utils.py:9-16 | `employees` stays an unevaluated query with random ordering, and each `employees[:spots]` runs its own query at an offset, with a fresh random order each time | two departments of capacity 1 and available employees A, B; the first query orders them A, B and the second B, A: both departments get A and B gets nothing | one shuffle, split into consecutive slices, so nobody is placed twice (the comments on lines 15-16 say so) | not executed; medium (depends on the database evaluating `ORDER BY RANDOM()` per query) | `Allocation.ReshuffleCanPlaceTwice` | `Allocation.PlacedOnce` |
