/** The hospital: a name and its departments, keyed by department name.

    The departments table is a Python dict, which keeps its keys in
    insertion order; the model holds the map together with the sequence of
    its keys in that order. Departments are shared objects: the hospital
    hands out the department it holds, and whatever is added to it shows in
    the next summary. */
module Hospitals {
  import opened Wrappers
  import opened Outcomes
  import opened Tallies
  import opened Persons
  import opened Staffing
  import opened Departments

  /** What get_summary reports. */
  datatype Summary = Summary(hospitalName: string, totalDepartments: nat, totalPatients: nat, totalStaff: nat)

  /** The identifier sets of the patients of each department, by name. */
  function PatientIdsOf(ds: map<string, Department>): (m: map<string, set<nat>>)
    reads ds.Values
    ensures m.Keys == ds.Keys
  {
    map k | k in ds :: ds[k].patients.Keys
  }

  /** The identifier sets of the staff members of each department, by name. */
  function StaffIdsOf(ds: map<string, Department>): (m: map<string, set<nat>>)
    reads ds.Values
    ensures m.Keys == ds.Keys
  {
    map k | k in ds :: ds[k].staffMembers.Keys
  }

  lemma IdsOfInsert(ds: map<string, Department>, k: string, d: Department)
    ensures PatientIdsOf(ds[k := d]) == PatientIdsOf(ds)[k := d.patients.Keys]
    ensures StaffIdsOf(ds[k := d]) == StaffIdsOf(ds)[k := d.staffMembers.Keys]
  {
  }

  lemma IdsOfDelete(ds: map<string, Department>, k: string)
    ensures PatientIdsOf(ds - {k}) == PatientIdsOf(ds) - {k}
    ensures StaffIdsOf(ds - {k}) == StaffIdsOf(ds) - {k}
  {
  }

  /** Each department is filed under its own name, and order lists every
      key exactly once. */
  ghost predicate Filed(ds: map<string, Department>, order: seq<string>) {
    && (forall k :: k in ds ==> ds[k].name == k)
    && NoDuplicates(order)
    && Elements(order) == ds.Keys
  }

  /** The summary of a hospital called name whose departments are ds, added
      in the order order: the sizes of the tables summed department by
      department. When ds and order are filed consistently, the totals count
      the departments and the (department, identifier) entries, whatever the
      order of the departments. */
  function SummaryOf(name: string, ds: map<string, Department>, order: seq<string>): (s: Summary)
    reads ds.Values
    ensures s.hospitalName == name
    ensures Filed(ds, order) ==> s.totalDepartments == |order|
    ensures Filed(ds, order) ==> s.totalPatients == |Pairs(PatientIdsOf(ds))|
    ensures Filed(ds, order) ==> s.totalStaff == |Pairs(StaffIdsOf(ds))|
  {
    assert Filed(ds, order) ==>
      && |ds| == |order|
      && SumCard(order, PatientIdsOf(ds)) == |Pairs(PatientIdsOf(ds))|
      && SumCard(order, StaffIdsOf(ds)) == |Pairs(StaffIdsOf(ds))|
    by {
      if Filed(ds, order) {
        NoDuplicatesCard(order);
        assert |ds| == |ds.Keys|;
        SumIsPairCount(order, PatientIdsOf(ds));
        SumIsPairCount(order, StaffIdsOf(ds));
      }
    }
    Summary(name, |ds|, SumCard(order, PatientIdsOf(ds)), SumCard(order, StaffIdsOf(ds)))
  }

  lemma MapInsertCard<K, V>(m: map<K, V>, k: K, v: V)
    requires k !in m
    ensures |m[k := v]| == |m| + 1
  {
  }

  lemma MapDeleteCard<K, V>(m: map<K, V>, k: K)
    requires k in m
    ensures |m - {k}| == |m| - 1
  {
    assert (m - {k}).Keys == m.Keys - {k};
  }

  /** Filing a department under its fresh name, last in order, keeps the
      filing. */
  lemma FiledAfterInsert(ds: map<string, Department>, order: seq<string>, d: Department)
    requires Filed(ds, order) && d.name !in ds
    ensures Filed(ds[d.name := d], order + [d.name])
  {
    ElementsAppend(order, d.name);
    NoDuplicatesAppend(order, d.name);
  }

  /** Deleting a department, from the map and from the order, keeps the
      filing. */
  lemma FiledAfterDelete(ds: map<string, Department>, order: seq<string>, k: string)
    requires Filed(ds, order)
    ensures Filed(ds - {k}, Without(order, k))
  {
    ElementsWithout(order, k);
  }

  /** Adding a department under a fresh name, last in order, raises the
      department total by one and each other total by exactly that
      department's count. */
  lemma SummaryAfterInsert(name: string, ds: map<string, Department>, order: seq<string>, d: Department)
    requires Filed(ds, order) && d.name !in ds
    ensures SummaryOf(name, ds[d.name := d], order + [d.name]).totalDepartments == |ds| + 1
    ensures SummaryOf(name, ds[d.name := d], order + [d.name]).totalPatients
      == SummaryOf(name, ds, order).totalPatients + |d.patients|
    ensures SummaryOf(name, ds[d.name := d], order + [d.name]).totalStaff
      == SummaryOf(name, ds, order).totalStaff + |d.staffMembers|
  {
    var ds', order' := ds[d.name := d], order + [d.name];
    MapInsertCard(ds, d.name, d);
    IdsOfInsert(ds, d.name, d);
    var before, after := SummaryOf(name, ds, order), SummaryOf(name, ds', order');
    assert after.totalPatients == before.totalPatients + |d.patients| by {
      SumAddKey(order, d.name, PatientIdsOf(ds), d.patients.Keys);
      assert |d.patients.Keys| == |d.patients|;
    }
    assert after.totalStaff == before.totalStaff + |d.staffMembers| by {
      SumAddKey(order, d.name, StaffIdsOf(ds), d.staffMembers.Keys);
      assert |d.staffMembers.Keys| == |d.staffMembers|;
    }
  }

  /** Deleting a present department lowers the department total by one and
      each other total by exactly that department's count. */
  lemma SummaryAfterDelete(name: string, ds: map<string, Department>, order: seq<string>, k: string)
    requires Filed(ds, order) && k in ds
    ensures SummaryOf(name, ds - {k}, Without(order, k)).totalDepartments + 1 == |ds|
    ensures SummaryOf(name, ds - {k}, Without(order, k)).totalPatients + |ds[k].patients|
      == SummaryOf(name, ds, order).totalPatients
    ensures SummaryOf(name, ds - {k}, Without(order, k)).totalStaff + |ds[k].staffMembers|
      == SummaryOf(name, ds, order).totalStaff
  {
    MapDeleteCard(ds, k);
    IdsOfDelete(ds, k);
    SumRemoveKey(order, k, PatientIdsOf(ds));
    SumRemoveKey(order, k, StaffIdsOf(ds));
  }

  class Hospital {
    const name: string
    var departments: map<string, Department>
    /** The keys of departments in the order they were added. */
    var order: seq<string>

    /** The departments are filed under their names, in order. */
    ghost predicate Valid()
      reads this
    {
      Filed(departments, order)
    }

    /** A new hospital keeps the given name and has no departments. */
    constructor (name: string)
      ensures Valid()
      ensures this.name == name && departments == map[] && order == []
    {
      this.name := name;
      departments := map[];
      order := [];
    }

    /** Rejects a name already present and leaves the table as it was;
        otherwise files the department under its name, last in order, and
        the table grows by one. */
    method AddDepartment(d: Department) returns (r: Status)
      requires Valid()
      modifies this
      ensures Valid()
      ensures r == if d.name in old(departments) then DepartmentExists else DepartmentAdded
      ensures departments == if r.Succeeded() then old(departments)[d.name := d] else old(departments)
      ensures order == if r.Succeeded() then old(order) + [d.name] else old(order)
      ensures |departments| == if r.Succeeded() then old(|departments|) + 1 else old(|departments|)
    {
      if d.name in departments {
        r := DepartmentExists;
      } else {
        ghost var ds, keys := departments, order;
        departments := departments[d.name := d];
        order := order + [d.name];
        r := DepartmentAdded;
        FiledAfterInsert(ds, keys, d);
        MapInsertCard(ds, d.name, d);
      }
    }

    /** Rejects a name that is absent and changes nothing; otherwise deletes
        exactly that entry. Afterwards the name is not found and the other
        entries keep their order. */
    method RemoveDepartment(name: string) returns (r: Status)
      requires Valid()
      modifies this
      ensures Valid()
      ensures r == if name in old(departments) then DepartmentRemoved else DepartmentNotFound
      ensures departments == old(departments) - {name}
      ensures order == Without(old(order), name)
      ensures GetDepartment(name) == None
      ensures r.Succeeded() ==> |departments| + 1 == old(|departments|)
    {
      if name !in departments {
        assert departments - {name} == departments;
        r := DepartmentNotFound;
      } else {
        ghost var ds, keys := departments, order;
        FiledAfterDelete(ds, keys, name);
        MapDeleteCard(ds, name);
        departments := departments - {name};
        order := Without(order, name);
        r := DepartmentRemoved;
      }
    }

    /** The department filed under name, if any; it carries that name. */
    function GetDepartment(name: string): (r: Option<Department>)
      reads this
      requires Valid()
      ensures r.Some? <==> name in departments
      ensures r.Some? ==> r.value == departments[name] && r.value.name == name
    {
      if name in departments then Some(departments[name]) else None
    }

    /** The departments in the order they were added, each exactly once. */
    function ListDepartments(): (ds: seq<Department>)
      reads this
      requires Valid()
      ensures |ds| == |order| == |departments|
      ensures forall i :: 0 <= i < |ds| ==> ds[i] in departments.Values && ds[i].name == order[i]
      ensures forall k :: k in departments ==> departments[k] in ds
      ensures NoDuplicates(ds)
    {
      NoDuplicatesCard(order);
      assert |departments| == |departments.Keys|;
      var ds := ValuesInOrder(order, departments);
      assert forall k :: k in departments ==> exists i :: 0 <= i < |order| && order[i] == k;
      ds
    }

    /** The hospital's name, the number of departments, and the numbers of
        patients and of staff members over the current departments, counted
        afresh on every call as the (department, identifier) entries. It is
        SummaryOf the current table, so SummaryAfterInsert and
        SummaryAfterDelete give its change across AddDepartment and
        RemoveDepartment. */
    function GetSummary(): (s: Summary)
      reads this, departments.Values
      requires Valid()
      ensures s.hospitalName == name && s.totalDepartments == |departments|
      ensures s.totalPatients == |Pairs(PatientIdsOf(departments))|
      ensures s.totalStaff == |Pairs(StaffIdsOf(departments))|
    {
      SummaryOf(name, departments, order)
    }
  }

  /** Departments filed under different names are different objects, since
      each carries the name it is filed under. */
  lemma FiledDistinct(ds: map<string, Department>, order: seq<string>, k: string, j: string)
    requires Filed(ds, order) && k in ds && j in ds && k != j
    ensures ds[k] != ds[j]
  {
  }

  /** Builds a patient (allocating its identifier) and adds it to the
      department the hospital files under a known name, through the object
      the hospital holds: the department's tables change as its own add
      operation says, and in the hospital's identifier tables only that
      department's patient entry changes. */
  method AddNewPatientTo(h: Hospital, alloc: IdAllocator, deptName: string, name: string, age: int, record: string)
    returns (r: Status)
    requires h.Valid() && alloc.Valid() && deptName in h.departments && h.departments[deptName].Valid()
    modifies alloc, h.departments[deptName]
    ensures h.departments[deptName].Valid() && alloc.Valid()
    ensures alloc.next == old(alloc.next) + 1 && alloc.issued == old(alloc.issued) + [old(alloc.next)]
    ensures var d, p := h.departments[deptName], Patient(Person(old(alloc.next), name, age), record);
      && r == (if p.Id() in old(d.patients) then PatientExists else PatientAdded)
      && d.patients == (if r.Succeeded() then old(d.patients)[p.Id() := p] else old(d.patients))
      && d.staffMembers == old(d.staffMembers)
    ensures PatientIdsOf(h.departments)
      == old(PatientIdsOf(h.departments))[deptName := h.departments[deptName].patients.Keys]
    ensures StaffIdsOf(h.departments) == old(StaffIdsOf(h.departments))
  {
    ghost var pids, sids := PatientIdsOf(h.departments), StaffIdsOf(h.departments);
    var d := h.departments[deptName];
    var patient := NewPatient(alloc, name, age, record);
    r := d.AddPatient(patient);
    forall k | k in h.departments
      ensures h.departments[k].staffMembers == old(h.departments[k].staffMembers)
      ensures k != deptName ==> h.departments[k].patients == old(h.departments[k].patients)
    {
      if k != deptName {
        FiledDistinct(h.departments, h.order, k, deptName);
      }
    }
    assert PatientIdsOf(h.departments) == pids[deptName := d.patients.Keys];
    assert StaffIdsOf(h.departments) == sids;
  }

  /** A caller looks a department up by name and, only when it is found,
      builds the patient (allocating its identifier) and adds it to the
      department object it got back. An unknown name changes nothing, not
      even the identifier counter. */
  method AdmitPatient(h: Hospital, alloc: IdAllocator, deptName: string, name: string, age: int, record: string)
    returns (r: Option<Status>)
    requires h.Valid() && alloc.Valid()
    requires deptName in h.departments ==> h.departments[deptName].Valid()
    modifies alloc, if deptName in h.departments then {h.departments[deptName]} else {}
    ensures h.Valid() && alloc.Valid()
    ensures deptName in h.departments ==> h.departments[deptName].Valid()
    ensures r.None? <==> deptName !in h.departments
    ensures r.None? ==> alloc.next == old(alloc.next) && alloc.issued == old(alloc.issued)
    ensures r.Some? ==> alloc.next == old(alloc.next) + 1 && alloc.issued == old(alloc.issued) + [old(alloc.next)]
    ensures r.Some? ==>
      var d, p := h.departments[deptName], Patient(Person(old(alloc.next), name, age), record);
      && r.value == (if p.Id() in old(d.patients) then PatientExists else PatientAdded)
      && d.patients == (if r.value.Succeeded() then old(d.patients)[p.Id() := p] else old(d.patients))
      && d.staffMembers == old(d.staffMembers)
    ensures h.GetSummary().totalDepartments == old(h.GetSummary().totalDepartments)
    ensures h.GetSummary().totalPatients == old(h.GetSummary().totalPatients) + if r == Some(PatientAdded) then 1 else 0
    ensures h.GetSummary().totalStaff == old(h.GetSummary().totalStaff)
  {
    ghost var pids, sids := PatientIdsOf(h.departments), StaffIdsOf(h.departments);
    var found := h.GetDepartment(deptName);
    if found.None? {
      r := None;
    } else {
      var s := AddNewPatientTo(h, alloc, deptName, name, age, record);
      r := Some(s);
      ghost var d := h.departments[deptName];
      SumUpdate(h.order, deptName, pids, d.patients.Keys);
      assert |d.patients.Keys| == |d.patients|;
      assert Size(pids, deptName) == |old(d.patients)| by {
        assert pids[deptName] == old(d.patients).Keys;
        assert |old(d.patients).Keys| == |old(d.patients)|;
      }
      assert h.GetSummary().totalPatients == SumCard(h.order, pids[deptName := d.patients.Keys]);
      assert old(h.GetSummary().totalPatients) == SumCard(h.order, pids);
    }
  }

  /** Builds a staff member (allocating its identifier) and adds it to the
      department the hospital files under a known name, through the object
      the hospital holds: the member is labelled with the department's name,
      the department's tables change as its own add operation says, and in
      the hospital's identifier tables only that department's staff entry
      changes. */
  method AddNewStaffTo(h: Hospital, alloc: IdAllocator, deptName: string, name: string, age: int, role: string, salary: real)
    returns (r: Status, m: Staff)
    requires h.Valid() && alloc.Valid() && deptName in h.departments && h.departments[deptName].Valid()
    modifies alloc, h.departments[deptName]
    ensures h.departments[deptName].Valid() && alloc.Valid()
    ensures alloc.next == old(alloc.next) + 1 && alloc.issued == old(alloc.issued) + [old(alloc.next)]
    ensures fresh(m)
    ensures m.person == Person(old(alloc.next), name, age) && m.role == role && m.salary == salary
    ensures m.department == deptName
    ensures var d := h.departments[deptName];
      && r == (if m.Id() in old(d.staffMembers) then StaffExists else StaffAdded)
      && d.staffMembers == (if r.Succeeded() then old(d.staffMembers)[m.Id() := m] else old(d.staffMembers))
      && d.patients == old(d.patients)
    ensures PatientIdsOf(h.departments) == old(PatientIdsOf(h.departments))
    ensures StaffIdsOf(h.departments)
      == old(StaffIdsOf(h.departments))[deptName := h.departments[deptName].staffMembers.Keys]
  {
    ghost var pids, sids := PatientIdsOf(h.departments), StaffIdsOf(h.departments);
    var d := h.departments[deptName];
    m := new Staff(alloc, name, age, role, deptName, salary);
    r := d.AddStaff(m);
    forall k | k in h.departments
      ensures h.departments[k].patients == old(h.departments[k].patients)
      ensures k != deptName ==> h.departments[k].staffMembers == old(h.departments[k].staffMembers)
    {
      if k != deptName {
        FiledDistinct(h.departments, h.order, k, deptName);
      }
    }
    assert PatientIdsOf(h.departments) == pids;
    assert StaffIdsOf(h.departments) == sids[deptName := d.staffMembers.Keys];
  }

  /** The same for a staff member: built (allocating its identifier),
      labelled with the department's name and added only when the
      department exists; the new member is handed back whenever it was
      built. An unknown name changes nothing, not even the identifier
      counter. */
  method AdmitStaff(h: Hospital, alloc: IdAllocator, deptName: string, name: string, age: int, role: string, salary: real)
    returns (r: Option<Status>, member: Option<Staff>)
    requires h.Valid() && alloc.Valid()
    requires deptName in h.departments ==> h.departments[deptName].Valid()
    modifies alloc, if deptName in h.departments then {h.departments[deptName]} else {}
    ensures h.Valid() && alloc.Valid()
    ensures deptName in h.departments ==> h.departments[deptName].Valid()
    ensures r.None? <==> deptName !in h.departments
    ensures member.Some? <==> r.Some?
    ensures r.None? ==> alloc.next == old(alloc.next) && alloc.issued == old(alloc.issued)
    ensures r.Some? ==> alloc.next == old(alloc.next) + 1 && alloc.issued == old(alloc.issued) + [old(alloc.next)]
    ensures r.Some? ==>
      var d, m := h.departments[deptName], member.value;
      && fresh(m)
      && m.person == Person(old(alloc.next), name, age) && m.role == role && m.salary == salary
      && m.department == deptName
      && r.value == (if m.Id() in old(d.staffMembers) then StaffExists else StaffAdded)
      && d.staffMembers == (if r.value.Succeeded() then old(d.staffMembers)[m.Id() := m] else old(d.staffMembers))
      && d.patients == old(d.patients)
    ensures h.GetSummary().totalDepartments == old(h.GetSummary().totalDepartments)
    ensures h.GetSummary().totalPatients == old(h.GetSummary().totalPatients)
    ensures h.GetSummary().totalStaff == old(h.GetSummary().totalStaff) + if r == Some(StaffAdded) then 1 else 0
  {
    ghost var pids, sids := PatientIdsOf(h.departments), StaffIdsOf(h.departments);
    var found := h.GetDepartment(deptName);
    if found.None? {
      r, member := None, None;
    } else {
      var s, m := AddNewStaffTo(h, alloc, deptName, name, age, role, salary);
      r, member := Some(s), Some(m);
      ghost var d := h.departments[deptName];
      SumUpdate(h.order, deptName, sids, d.staffMembers.Keys);
      assert |d.staffMembers.Keys| == |d.staffMembers|;
      assert Size(sids, deptName) == |old(d.staffMembers)| by {
        assert sids[deptName] == old(d.staffMembers).Keys;
        assert |old(d.staffMembers).Keys| == |old(d.staffMembers)|;
      }
      assert h.GetSummary().totalStaff == SumCard(h.order, sids[deptName := d.staffMembers.Keys]);
      assert old(h.GetSummary().totalStaff) == SumCard(h.order, sids);
    }
  }
}
