/** A department: a name and two tables keyed by identifier, one of
    patients and one of staff members. Departments are objects because the
    hospital hands out the very object it holds, and adding to it changes
    what the hospital later reports. */
module Departments {
  import opened Decimal
  import opened Outcomes
  import opened Persons
  import opened Staffing

  /** What a department's repr writes before the patient count. */
  function DescribeHead(name: string): string {
    "Department Name : " + name + ", Patients: "
  }

  /** The line a department's repr formats from its name and the sizes of
      its two tables. The patient count can be read back from right after
      the head, and what follows is the staff count's separator and
      digits. */
  function Describe(name: string, patients: nat, staff: nat): (r: string)
    ensures |DescribeHead(name)| <= |r| && r[..|DescribeHead(name)|] == DescribeHead(name)
    ensures ReadNat(r[|DescribeHead(name)|..]) == (patients, ", Staff_Members: " + NatToString(staff))
  {
    var head, rest := DescribeHead(name), ", Staff_Members: " + NatToString(staff);
    ReadNatAfterNatToString(patients, rest);
    assert (head + (NatToString(patients) + rest))[|head|..] == NatToString(patients) + rest;
    head + (NatToString(patients) + rest)
  }

  /** Two lines for the same name are equal exactly when both counts are. */
  lemma DescribeDeterminesCounts(name: string, p1: nat, s1: nat, p2: nat, s2: nat)
    ensures Describe(name, p1, s1) == Describe(name, p2, s2) <==> p1 == p2 && s1 == s2
  {
    var head, sep := DescribeHead(name), ", Staff_Members: ";
    if Describe(name, p1, s1) == Describe(name, p2, s2) {
      assert sep + NatToString(s1) == sep + NatToString(s2);
      assert (sep + NatToString(s1))[|sep|..] == NatToString(s1);
      assert (sep + NatToString(s2))[|sep|..] == NatToString(s2);
      NatToStringInjective(s1, s2);
    }
  }

  class Department {
    const name: string
    /** Patients by identifier. */
    var patients: map<nat, Patient>
    /** Staff members by identifier. */
    var staffMembers: map<nat, Staff>

    /** Every entry is filed under its own identifier. */
    ghost predicate Valid()
      reads this
    {
      && (forall id :: id in patients ==> patients[id].Id() == id)
      && (forall id :: id in staffMembers ==> staffMembers[id].Id() == id)
    }

    /** A new department has the given name and two empty tables. */
    constructor (name: string)
      ensures Valid()
      ensures this.name == name && patients == map[] && staffMembers == map[]
    {
      this.name := name;
      patients := map[];
      staffMembers := map[];
    }

    /** The department's repr: its name and the sizes of its two tables;
        the number right after the head is the patient count. */
    function ToString(): (s: string)
      reads this
      ensures |DescribeHead(name)| <= |s| && s[..|DescribeHead(name)|] == DescribeHead(name)
      ensures ReadNat(s[|DescribeHead(name)|..]) == (|patients|, ", Staff_Members: " + NatToString(|staffMembers|))
    {
      Describe(name, |patients|, |staffMembers|)
    }

    /** Rejects an identifier already present; otherwise files the patient
        under its identifier. The staff table is never touched. */
    method AddPatient(patient: Patient) returns (r: Status)
      requires Valid()
      modifies this
      ensures Valid()
      ensures r == if patient.Id() in old(patients) then PatientExists else PatientAdded
      ensures patients == if r.Succeeded() then old(patients)[patient.Id() := patient] else old(patients)
      ensures |patients| == |old(patients)| + if r.Succeeded() then 1 else 0
      ensures staffMembers == old(staffMembers)
    {
      if patient.Id() in patients {
        r := PatientExists;
      } else {
        patients := patients[patient.Id() := patient];
        r := PatientAdded;
      }
    }

    /** Writes this department's name into the member's label first, even
        when the member is then rejected; rejects an identifier already
        present, and otherwise files the member under its identifier. The
        patient table is never touched. */
    method AddStaff(member: Staff) returns (r: Status)
      requires Valid()
      modifies this, member
      ensures Valid()
      ensures member.department == name
      ensures r == if member.Id() in old(staffMembers) then StaffExists else StaffAdded
      ensures staffMembers == if r.Succeeded() then old(staffMembers)[member.Id() := member] else old(staffMembers)
      ensures |staffMembers| == |old(staffMembers)| + if r.Succeeded() then 1 else 0
      ensures patients == old(patients)
    {
      member.department := name;
      if member.Id() in staffMembers {
        r := StaffExists;
      } else {
        staffMembers := staffMembers[member.Id() := member];
        r := StaffAdded;
      }
    }
  }
}
