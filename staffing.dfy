/** Staff members: a person with a role, a department label and a salary.
    The department label is a plain field that a department overwrites when
    the member is added to it, so a staff member is an object. */
module Staffing {
  import opened Persons

  class Staff {
    /** The identifier, name and age set up by the person constructor. */
    const person: Person
    const role: string
    /** The name of the department, as last written. */
    var department: string
    /** Stored and never computed on. */
    const salary: real

    /** Allocates exactly one identifier, through the person constructor,
        from the counter shared with every other person; the other fields
        are stored as given. */
    constructor (alloc: IdAllocator, name: string, age: int, role: string, department: string, salary: real)
      requires alloc.Valid()
      modifies alloc
      ensures alloc.Valid()
      ensures person == Person(old(alloc.next), name, age)
      ensures alloc.next == old(alloc.next) + 1
      ensures alloc.issued == old(alloc.issued) + [person.id]
      ensures forall i :: 0 <= i < |old(alloc.issued)| ==> old(alloc.issued)[i] < person.id
      ensures this.role == role && this.department == department && this.salary == salary
    {
      var p := NewPerson(alloc, name, age);
      person := p;
      this.role := role;
      this.department := department;
      this.salary := salary;
    }

    function Id(): nat {
      person.id
    }
  }
}
