/** The records the allocator reads and writes: departments, employees with
    their status codes, the employee-to-department membership relation, and
    the display strings of each record. */
module Models {

  datatype Option<T> = None | Some(value: T)

  type EmpId = nat
  type DeptId = nat

  /** A department row. `name` is unique across the table; `capacity` is a
      plain integer with no declared lower bound. */
  datatype Department = Department(id: DeptId, name: string, capacity: int)

  /** The five choices of the `status` column. */
  datatype Status = Available | Holiday | Sick | Absent | Off

  /** The value stored in the `status` column for each choice; every code
      fits the column's 20 characters, and only `Available` stores
      "available". */
  function Code(s: Status): (r: string)
    ensures 0 < |r| <= 20
    ensures r == "available" <==> s == Available
  {
    match s
    case Available => "available"
    case Holiday => "holiday"
    case Sick => "sick"
    case Absent => "absent"
    case Off => "off"
  }

  /** Reads a stored status back as one of the choices; a stored string that
      is not one of the five codes reads as None. */
  function FromCode(c: string): (r: Option<Status>)
    ensures forall s: Status :: r == Some(s) <==> Code(s) == c
  {
    if c == "available" then Some(Available)
    else if c == "holiday" then Some(Holiday)
    else if c == "sick" then Some(Sick)
    else if c == "absent" then Some(Absent)
    else if c == "off" then Some(Off)
    else None
  }

  /** The status a new employee row gets when none is given. */
  const DefaultStatus: Status := Available

  /** An employee row. The status is kept as the stored string, since the
      column is free text with a list of suggested choices; the department
      memberships live in the separate relation `Membership`. */
  datatype Employee = Employee(id: EmpId, firstName: string, lastName: string, status: string)

  /** An employee created without an explicit status. */
  function NewEmployee(id: EmpId, firstName: string, lastName: string): (e: Employee)
    ensures e.id == id && e.firstName == firstName && e.lastName == lastName
    ensures FromCode(e.status) == Some(DefaultStatus)
  {
    Employee(id, firstName, lastName, Code(DefaultStatus))
  }

  /** How an employee renders: first name, one space, last name. */
  function Display(e: Employee): (r: string)
    ensures |r| == |e.firstName| + 1 + |e.lastName|
    ensures r[..|e.firstName|] == e.firstName
    ensures r[|e.firstName|] == ' '
    ensures r[|e.firstName| + 1..] == e.lastName
  {
    e.firstName + " " + e.lastName
  }

  /** How a department renders: its name. */
  function DepartmentDisplay(d: Department): string
  {
    d.name
  }

  /** Splits a string at its first space (the whole string and "" when there
      is none). */
  function SplitAtSpace(s: string): (string, string)
  {
    if s == [] then ("", "")
    else if s[0] == ' ' then ("", s[1..])
    else
      var (first, rest) := SplitAtSpace(s[1..]);
      ([s[0]] + first, rest)
  }

  lemma {:induction false} SplitJoined(first: string, last: string)
    requires ' ' !in first
    ensures SplitAtSpace(first + " " + last) == (first, last)
  {
    var s := first + " " + last;
    if first != [] {
      assert s[0] == first[0];
      assert s[1..] == first[1..] + " " + last;
      SplitJoined(first[1..], last);
      assert [first[0]] + first[1..] == first;
    } else {
      assert s == " " + last;
    }
  }

  /** The display string of an employee whose first name holds no space
      gives back the first and last name. */
  lemma {:induction false} DisplayRoundTrip(e: Employee)
    requires ' ' !in e.firstName
    ensures SplitAtSpace(Display(e)) == (e.firstName, e.lastName)
  {
    SplitJoined(e.firstName, e.lastName);
  }

  /** A shift row; only its name is rendered. */
  datatype Shift = Shift(name: string)

  function ShiftDisplay(s: Shift): string
  {
    s.name
  }

  /** A dated assignment of an employee to a department on a shift. The date
      is carried as its rendered text. */
  datatype Assignment = Assignment(employee: Employee, department: Department, shift: Shift, date: string)

  /** How an assignment renders: "First Last <shift>, <date>, <department>". */
  function AssignmentDisplay(a: Assignment): (r: string)
    ensures r == Display(a.employee) + " " + ShiftDisplay(a.shift) + ", " + a.date + ", "
                 + DepartmentDisplay(a.department)
    ensures r[..|Display(a.employee)|] == Display(a.employee)
    ensures r[|r| - |a.department.name|..] == a.department.name
  {
    a.employee.firstName + " " + a.employee.lastName + " " + a.shift.name + ", " + a.date + ", "
      + a.department.name
  }

  /** The many-to-many relation between employees and departments: each
      employee belongs to zero or more departments. */
  class Membership {
    var links: map<EmpId, set<DeptId>>

    constructor ()
      ensures links == map[]
    {
      links := map[];
    }

    /** The departments employee `e` belongs to. */
    function Of(e: EmpId): set<DeptId>
      reads this
    {
      DepartmentsOf(links, e)
    }

    /** Adds department `d` to employee `e`'s memberships. */
    method Add(e: EmpId, d: DeptId)
      modifies this
      ensures links == old(links)[e := DepartmentsOf(old(links), e) + {d}]
      ensures Of(e) == old(Of(e)) + {d}
      ensures forall x :: x != e ==> Of(x) == old(Of(x))
    {
      links := links[e := DepartmentsOf(links, e) + {d}];
    }
  }

  /** The departments of `e` according to `links`; none when `e` has no entry. */
  function DepartmentsOf(links: map<EmpId, set<DeptId>>, e: EmpId): set<DeptId>
  {
    if e in links then links[e] else {}
  }
}
