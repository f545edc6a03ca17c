/** The allocator: the employees whose status is "available", in a random
    order, are handed out to the departments in table order, each department
    taking the next `capacity` of them; every employee handed out gains that
    department, and the result maps each department's name to the display
    names of the employees it received. */
module Allocation {
  import opened Models
  import opened Partition

  /** The rows the allocator considers: status stored exactly as "available". */
  predicate IsCandidate(e: Employee)
  {
    e.status == "available"
  }

  /** No two rows share an id. */
  predicate DistinctIds(s: seq<Employee>)
  {
    forall a, b :: 0 <= a < b < |s| ==> s[a].id != s[b].id
  }

  /** The rows whose status is exactly "available", in table order. */
  function AvailableStaff(staff: seq<Employee>): (r: seq<Employee>)
    ensures forall e :: e in r <==> e in staff && IsCandidate(e)
    ensures |r| <= |staff|
    ensures DistinctIds(staff) ==> DistinctIds(r)
  {
    if staff == [] then []
    else if IsCandidate(staff[0]) then
      var rest := AvailableStaff(staff[1..]);
      HeadIdFresh(staff);
      [staff[0]] + rest
    else AvailableStaff(staff[1..])
  }

  lemma {:induction false} HeadIdFresh(staff: seq<Employee>)
    requires staff != []
    ensures DistinctIds(staff) ==> DistinctIds(staff[1..])
    ensures DistinctIds(staff) ==> forall e :: e in staff[1..] ==> e.id != staff[0].id
  {
  }

  /** `shuffled` is the available rows of `staff` in some order, each once:
      what the random ordering of the query hands the allocator. */
  ghost predicate IsShuffleOf(shuffled: seq<Employee>, staff: seq<Employee>)
  {
    DistinctIds(shuffled) && forall e :: e in shuffled <==> e in AvailableStaff(staff)
  }

  /** Queryset slicing rejects negative bounds, so every capacity must be
      non-negative. */
  predicate NonNegativeCapacities(ds: seq<Department>)
  {
    forall i :: 0 <= i < |ds| ==> ds[i].capacity >= 0
  }

  function Capacities(ds: seq<Department>): (caps: seq<nat>)
    requires NonNegativeCapacities(ds)
    ensures |caps| == |ds|
    ensures forall i :: 0 <= i < |ds| ==> caps[i] == ds[i].capacity
  {
    seq(|ds|, i requires 0 <= i < |ds| => ds[i].capacity)
  }

  /** The display names of `es`, in order. */
  function Names(es: seq<Employee>): (r: seq<string>)
    ensures |r| == |es|
    ensures forall k :: 0 <= k < |es| ==> r[k] == Display(es[k])
  {
    seq(|es|, k requires 0 <= k < |es| => Display(es[k]))
  }

  /** The result dictionary once the departments `ds` have received the
      lists `ss`, written in department order: a later department with the
      same name would overwrite an earlier entry. */
  function Results(ds: seq<Department>, ss: seq<seq<Employee>>): map<string, seq<string>>
    requires |ds| == |ss|
  {
    if ds == [] then map[]
    else
      var n := |ds| - 1;
      Results(ds[..n], ss[..n])[ds[n].name := Names(ss[n])]
  }

  function Ids(es: seq<Employee>): set<EmpId>
  {
    set e | e in es :: e.id
  }

  /** Memberships after adding department `d` to every employee of `es`. */
  function AddToAll(links: map<EmpId, set<DeptId>>, es: seq<Employee>, d: DeptId): map<EmpId, set<DeptId>>
  {
    AddToIds(links, Ids(es), d)
  }

  /** Memberships once the departments `ds` have received the lists `ss`. */
  function Enrolled(links: map<EmpId, set<DeptId>>, ds: seq<Department>, ss: seq<seq<Employee>>)
    : map<EmpId, set<DeptId>>
    requires |ds| == |ss|
  {
    if ds == [] then links
    else
      var n := |ds| - 1;
      AddToAll(Enrolled(links, ds[..n], ss[..n]), ss[n], ds[n].id)
  }

  lemma {:induction false} AddToAllSnoc(links: map<EmpId, set<DeptId>>, es: seq<Employee>, j: nat, d: DeptId)
    requires j < |es|
    ensures AddToAll(links, es[..j + 1], d)
            == AddToAll(links, es[..j], d)[es[j].id := DepartmentsOf(AddToAll(links, es[..j], d), es[j].id) + {d}]
  {
    IdsSnoc(es, j);
    AddToAllIds(links, Ids(es[..j]), es[j].id, d);
  }

  lemma {:induction false} IdsSnoc(es: seq<Employee>, j: nat)
    requires j < |es|
    ensures Ids(es[..j + 1]) == Ids(es[..j]) + {es[j].id}
  {
    assert es[..j + 1] == es[..j] + [es[j]];
  }

  /** `AddToAll` depends on the employees only through their ids. */
  function AddToIds(links: map<EmpId, set<DeptId>>, ids: set<EmpId>, d: DeptId): map<EmpId, set<DeptId>>
  {
    map x | x in links.Keys + ids :: if x in ids then DepartmentsOf(links, x) + {d} else links[x]
  }

  lemma {:induction false} AddToAllIds(links: map<EmpId, set<DeptId>>, ids: set<EmpId>, x: EmpId, d: DeptId)
    ensures AddToIds(links, ids + {x}, d) == AddToIds(links, ids, d)[x := DepartmentsOf(AddToIds(links, ids, d), x) + {d}]
  {
  }

  /** Adds department `d` to each employee of `chosen`, one at a time. */
  method AddDepartment(m: Membership, chosen: seq<Employee>, d: DeptId)
    modifies m
    ensures m.links == AddToAll(old(m.links), chosen, d)
  {
    for j := 0 to |chosen|
      invariant m.links == AddToAll(old(m.links), chosen[..j], d)
    {
      m.Add(chosen[j].id, d);
      AddToAllSnoc(old(m.links), chosen, j, d);
    }
    assert chosen[..|chosen|] == chosen;
  }

  /** One department's turn: it receives the next `caps[i]` employees of
      what is left, the result gains its entry and those employees gain it. */
  lemma {:induction false} RunStep(ds: seq<Department>, queue: seq<Employee>, caps: seq<nat>, i: nat,
                links: map<EmpId, set<DeptId>>)
    requires |caps| == |ds| && i < |ds|
    ensures var chosen := Take(Leftover(queue, caps[..i]), caps[i]);
            var before, after := Slices(queue, caps[..i]), Slices(queue, caps[..i + 1]);
            && Leftover(queue, caps[..i + 1]) == Drop(Leftover(queue, caps[..i]), caps[i])
            && Results(ds[..i + 1], after) == Results(ds[..i], before)[ds[i].name := Names(chosen)]
            && Enrolled(links, ds[..i + 1], after) == AddToAll(Enrolled(links, ds[..i], before), chosen, ds[i].id)
  {
    assert caps[..i + 1] == caps[..i] + [caps[i]];
    SlicesSnoc(queue, caps[..i], caps[i]);
    var after := Slices(queue, caps[..i + 1]);
    assert after[..i] == Slices(queue, caps[..i]);
    assert ds[..i + 1][..i] == ds[..i];
  }

  /** The allocation run. `shuffled` is the available employees in the order
      the random query produced; `m` is the membership relation it extends. */
  method AssignEmployees(m: Membership, departments: seq<Department>, shuffled: seq<Employee>,
                         ghost staff: seq<Employee>)
    returns (assignments: map<string, seq<string>>)
    requires IsShuffleOf(shuffled, staff)
    requires NonNegativeCapacities(departments)
    modifies m
    ensures assignments == Results(departments, Slices(shuffled, Capacities(departments)))
    ensures m.links == Enrolled(old(m.links), departments, Slices(shuffled, Capacities(departments)))
  {
    ghost var caps := Capacities(departments);
    ghost var links0 := m.links;
    var employees := shuffled;
    assignments := map[];
    var i := 0;
    while i < |departments|
      invariant 0 <= i <= |departments|
      invariant employees == Leftover(shuffled, caps[..i])
      invariant assignments == Results(departments[..i], Slices(shuffled, caps[..i]))
      invariant m.links == Enrolled(links0, departments[..i], Slices(shuffled, caps[..i]))
    {
      var department := departments[i];
      var availableSpots: nat := department.capacity;
      var chosen := Take(employees, availableSpots);
      employees := Drop(employees, availableSpots);

      AddDepartment(m, chosen, department.id);

      assignments := assignments[department.name := Names(chosen)];

      RunStep(departments, shuffled, caps, i, links0);
      i := i + 1;
    }
    assert departments[..i] == departments;
    assert caps[..i] == caps;
  }

  /** The filter on the stored string agrees with reading it as a choice:
      a row is a candidate exactly when its status reads as Available. */
  lemma {:induction false} CandidateIffAvailable(e: Employee)
    ensures IsCandidate(e) <==> FromCode(e.status) == Some(Available)
  {
  }

  /** No two departments share a name. */
  predicate UniqueNames(ds: seq<Department>)
  {
    forall a, b :: 0 <= a < b < |ds| ==> ds[a].name != ds[b].name
  }

  /** Departments with different names render differently, so the rendering
      of a table with unique names tells its departments apart. */
  lemma {:induction false} DepartmentsRenderApart(ds: seq<Department>, a: nat, b: nat)
    requires UniqueNames(ds) && a < b < |ds|
    ensures DepartmentDisplay(ds[a]) != DepartmentDisplay(ds[b])
  {
  }

  /** Every department name is a key of the result, and nothing else is; with
      no departments the result is empty. */
  lemma {:induction false} ResultKeys(ds: seq<Department>, ss: seq<seq<Employee>>)
    requires |ds| == |ss|
    ensures Results(ds, ss).Keys == set d | d in ds :: d.name
  {
    if ds != [] {
      var n := |ds| - 1;
      ResultKeys(ds[..n], ss[..n]);
      assert ds == ds[..n] + [ds[n]];
      assert (set d | d in ds :: d.name) == (set d | d in ds[..n] :: d.name) + {ds[n].name};
    }
  }

  /** With unique names, department i's entry is the display names of the
      employees it received, in order. */
  lemma {:induction false} ResultEntry(ds: seq<Department>, ss: seq<seq<Employee>>, i: nat)
    requires |ds| == |ss| && i < |ds|
    requires UniqueNames(ds)
    ensures ds[i].name in Results(ds, ss)
    ensures Results(ds, ss)[ds[i].name] == Names(ss[i])
  {
    var n := |ds| - 1;
    if i < n {
      ResultEntry(ds[..n], ss[..n], i);
      assert ds[i].name != ds[n].name;
    }
  }

  /** With unique names, the result has exactly one entry per department:
      no two departments are merged under one key. */
  lemma {:induction false} ResultSize(ds: seq<Department>, ss: seq<seq<Employee>>)
    requires |ds| == |ss|
    requires UniqueNames(ds)
    ensures |Results(ds, ss)| == |ds|
  {
    if ds != [] {
      var n := |ds| - 1;
      ResultSize(ds[..n], ss[..n]);
      ResultKeys(ds[..n], ss[..n]);
      assert ds[n].name !in Results(ds[..n], ss[..n]);
    }
  }

  /** Memberships only grow. */
  lemma {:induction false} EnrolledGrows(links: map<EmpId, set<DeptId>>, ds: seq<Department>,
                                         ss: seq<seq<Employee>>, x: EmpId)
    requires |ds| == |ss|
    ensures DepartmentsOf(links, x) <= DepartmentsOf(Enrolled(links, ds, ss), x)
  {
    if ds != [] {
      var n := |ds| - 1;
      EnrolledGrows(links, ds[..n], ss[..n], x);
    }
  }

  /** An employee in none of the lists keeps its memberships. */
  lemma {:induction false} EnrolledUntouched(links: map<EmpId, set<DeptId>>, ds: seq<Department>,
                                             ss: seq<seq<Employee>>, x: EmpId)
    requires |ds| == |ss|
    requires forall j :: 0 <= j < |ss| ==> x !in Ids(ss[j])
    ensures DepartmentsOf(Enrolled(links, ds, ss), x) == DepartmentsOf(links, x)
  {
    if ds != [] {
      var n := |ds| - 1;
      assert x !in Ids(ss[n]);
      EnrolledUntouched(links, ds[..n], ss[..n], x);
    }
  }

  /** An employee in list i and in no other gains exactly department i. */
  lemma {:induction false} EnrolledPlaced(links: map<EmpId, set<DeptId>>, ds: seq<Department>,
                                          ss: seq<seq<Employee>>, i: nat, x: EmpId)
    requires |ds| == |ss| && i < |ds|
    requires x in Ids(ss[i])
    requires forall j :: 0 <= j < |ss| && j != i ==> x !in Ids(ss[j])
    ensures DepartmentsOf(Enrolled(links, ds, ss), x) == DepartmentsOf(links, x) + {ds[i].id}
  {
    var n := |ds| - 1;
    if i == n {
      EnrolledUntouched(links, ds[..n], ss[..n], x);
    } else {
      assert x !in Ids(ss[n]);
      EnrolledPlaced(links, ds[..n], ss[..n], i, x);
    }
  }

  /** Every employee a department receives is a row of the table whose
      status is exactly "available". */
  lemma {:induction false} PlacedAreCandidates(staff: seq<Employee>, queue: seq<Employee>, caps: seq<nat>, i: nat, e: Employee)
    requires IsShuffleOf(queue, staff)
    requires i < |caps| && e in Slices(queue, caps)[i]
    ensures e in staff && IsCandidate(e)
  {
    var k :| 0 <= k < |Slices(queue, caps)[i]| && Slices(queue, caps)[i][k] == e;
    SliceElement(queue, caps, i, k);
    assert e in queue;
    assert e in AvailableStaff(staff);
  }

  /** No employee is placed twice: two places in the lists, in the same
      department or in two departments, never hold the same employee id. */
  lemma {:induction false} PlacedOnce(queue: seq<Employee>, caps: seq<nat>, i: nat, k: nat, j: nat, l: nat)
    requires DistinctIds(queue)
    requires i < |caps| && k < |Slices(queue, caps)[i]|
    requires j < |caps| && l < |Slices(queue, caps)[j]|
    requires (i, k) != (j, l)
    ensures Slices(queue, caps)[i][k].id != Slices(queue, caps)[j][l].id
  {
    SliceElement(queue, caps, i, k);
    SliceElement(queue, caps, j, l);
    if i < j {
      StartMonotone(caps, i + 1, j);
    } else if j < i {
      StartMonotone(caps, j + 1, i);
    }
  }

  /** Lists of different departments share no employee id. */
  lemma {:induction false} IdsDisjoint(queue: seq<Employee>, caps: seq<nat>, i: nat, j: nat)
    requires DistinctIds(queue)
    requires i < |caps| && j < |caps| && i != j
    ensures Ids(Slices(queue, caps)[i]) !! Ids(Slices(queue, caps)[j])
  {
    var ss := Slices(queue, caps);
    forall x | x in Ids(ss[i]) && x in Ids(ss[j])
      ensures false
    {
      var k :| 0 <= k < |ss[i]| && ss[i][k].id == x;
      var l :| 0 <= l < |ss[j]| && ss[j][l].id == x;
      PlacedOnce(queue, caps, i, k, j, l);
    }
  }

  /** After the run, an employee placed in department i has gained exactly
      that department. */
  lemma {:induction false} PlacedGainsDepartment(queue: seq<Employee>, ds: seq<Department>, links: map<EmpId, set<DeptId>>,
                              i: nat, e: Employee)
    requires DistinctIds(queue) && NonNegativeCapacities(ds)
    requires i < |ds| && e in Slices(queue, Capacities(ds))[i]
    ensures var after := Enrolled(links, ds, Slices(queue, Capacities(ds)));
            DepartmentsOf(after, e.id) == DepartmentsOf(links, e.id) + {ds[i].id}
  {
    var ss := Slices(queue, Capacities(ds));
    forall j | 0 <= j < |ss| && j != i
      ensures e.id !in Ids(ss[j])
    {
      IdsDisjoint(queue, Capacities(ds), i, j);
    }
    EnrolledPlaced(links, ds, ss, i, e.id);
  }

  /** After the run, an employee of the table that was not placed (because
      its status is not "available" or because the capacities ran out) keeps
      exactly the memberships it had. */
  lemma {:induction false} UnplacedKeepsMemberships(staff: seq<Employee>, queue: seq<Employee>, ds: seq<Department>,
                                 links: map<EmpId, set<DeptId>>, e: Employee)
    requires DistinctIds(staff) && IsShuffleOf(queue, staff) && NonNegativeCapacities(ds)
    requires e in staff && e !in Flatten(Slices(queue, Capacities(ds)))
    ensures var after := Enrolled(links, ds, Slices(queue, Capacities(ds)));
            DepartmentsOf(after, e.id) == DepartmentsOf(links, e.id)
  {
    var caps := Capacities(ds);
    var ss := Slices(queue, caps);
    forall j | 0 <= j < |ss|
      ensures e.id !in Ids(ss[j])
    {
      if e.id in Ids(ss[j]) {
        var y: Employee :| y in ss[j] && y.id == e.id;
        PlacedAreCandidates(staff, queue, caps, j, y);
        SameIdSameRow(staff, y, e);
        InFlatten(ss, j, y);
      }
    }
    EnrolledUntouched(links, ds, ss, e.id);
  }

  lemma {:induction false} SameIdSameRow(staff: seq<Employee>, x: Employee, y: Employee)
    requires DistinctIds(staff) && x in staff && y in staff && x.id == y.id
    ensures x == y
  {
  }

  /** A row whose status is anything but exactly "available" is never placed. */
  lemma {:induction false} NonCandidatesNeverPlaced(staff: seq<Employee>, queue: seq<Employee>, caps: seq<nat>, e: Employee)
    requires IsShuffleOf(queue, staff)
    requires !IsCandidate(e)
    ensures e !in Flatten(Slices(queue, caps))
  {
    var placed := Flatten(Slices(queue, caps));
    SlicesCover(queue, caps);
    forall x | x in placed
      ensures IsCandidate(x)
    {
      var k :| 0 <= k < |placed| && placed[k] == x;
      assert queue[k] == x;
      assert x in AvailableStaff(staff);
    }
  }

  lemma {:induction false} DistinctCount(s: seq<Employee>)
    requires DistinctIds(s)
    ensures |set e | e in s| == |s|
  {
    if s != [] {
      HeadIdFresh(s);
      DistinctCount(s[1..]);
      assert (set e | e in s) == {s[0]} + (set e | e in s[1..]);
    }
  }

  /** The shuffled queue holds exactly as many employees as the table has
      available rows. */
  lemma {:induction false} ShuffleLength(staff: seq<Employee>, queue: seq<Employee>)
    requires DistinctIds(staff) && IsShuffleOf(queue, staff)
    ensures |queue| == |AvailableStaff(staff)|
  {
    var available := AvailableStaff(staff);
    DistinctCount(queue);
    DistinctCount(available);
    assert (set e | e in queue) == (set e | e in available);
  }

  /** With n available employees, the run places `min(n, total capacity)` of
      them and leaves the other employees unplaced. */
  lemma {:induction false} PlacedTotal(staff: seq<Employee>, queue: seq<Employee>, ds: seq<Department>)
    requires DistinctIds(staff) && IsShuffleOf(queue, staff) && NonNegativeCapacities(ds)
    ensures var n := |AvailableStaff(staff)|;
            var placed := |Flatten(Slices(queue, Capacities(ds)))|;
            placed == Min(n, Sum(Capacities(ds)))
            && |Leftover(queue, Capacities(ds))| == n - placed
  {
    ShuffleLength(staff, queue);
    PlacedCount(queue, Capacities(ds));
  }

  /** The slices as the query code evaluates them: `order_by('?')` is part of
      every query that the slicing builds, so each department's slice runs
      its own query over its own random ordering `orders[i]`, at the offset
      the earlier departments consumed. */
  function ReshuffledSlices(orders: seq<seq<Employee>>, caps: seq<nat>): (r: seq<seq<Employee>>)
    requires |orders| == |caps|
    ensures |r| == |caps|
    ensures forall i :: 0 <= i < |caps| ==> |r[i]| <= caps[i]
  {
    seq(|caps|, i requires 0 <= i < |caps| =>
      orders[i][Min(Start(caps, i), |orders[i]|)..Min(Start(caps, i) + caps[i], |orders[i]|)])
  }

  /** Two departments of capacity 1 and two available employees: when the
      second query happens to order the employees the other way round, the
      same employee is placed in both departments and the other in neither. */
  lemma {:induction false} ReshuffleCanPlaceTwice()
    ensures var a, b := Employee(1, "Anna", "Nowak", "available"), Employee(2, "Jan", "Kowalski", "available");
            && ReshuffledSlices([[a, b], [b, a]], [1, 1]) == [[a], [a]]
            && Slices([a, b], [1, 1]) == [[a], [b]]
  {
    var a, b := Employee(1, "Anna", "Nowak", "available"), Employee(2, "Jan", "Kowalski", "available");
    var caps: seq<nat> := [1, 1];
    assert Start(caps, 0) == 0 && Start(caps, 1) == 1;
    var r := ReshuffledSlices([[a, b], [b, a]], caps);
    assert r[0] == [a, b][0..1] == [a];
    assert r[1] == [b, a][1..2] == [a];
    assert r == [[a], [a]];
    var ss := Slices([a, b], caps);
    SliceAt([a, b], caps, 0);
    SliceAt([a, b], caps, 1);
    assert ss[0] == [a, b][0..1] == [a];
    assert ss[1] == [a, b][1..2] == [b];
    assert ss == [[a], [b]];
  }
}
