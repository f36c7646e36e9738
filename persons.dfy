/** People of the hospital and the allocator of their identifiers.

    Every person, patient or staff member, takes its identifier from one
    counter that starts at 1 and goes up by one per construction. The model
    makes that shared class-level counter an explicit allocator object that
    each constructor is given; a ghost log of the identifiers issued so far
    lets uniqueness and monotonicity be stated. */
module Persons {
  import opened Decimal

  /** The run a, a + 1, ..., b - 1 (empty when b <= a). */
  function Span(a: nat, b: nat): seq<nat>
    decreases b
  {
    if b <= a then [] else Span(a, b - 1) + [b - 1]
  }

  lemma {:induction false} SpanAt(a: nat, b: nat, i: nat)
    requires a <= b && i < b - a
    ensures |Span(a, b)| == b - a && Span(a, b)[i] == a + i
    decreases b
  {
    if i < b - 1 - a {
      SpanAt(a, b - 1, i);
    } else {
      SpanLength(a, b - 1);
    }
  }

  lemma {:induction false} SpanLength(a: nat, b: nat)
    requires a <= b
    ensures |Span(a, b)| == b - a
    decreases b
  {
    if a < b {
      SpanLength(a, b - 1);
    }
  }

  /** The identifiers handed out are strictly increasing, so no two people
      constructed one after another share one. */
  lemma SpanStrictlyIncreasing(a: nat, b: nat, i: nat, j: nat)
    requires a <= b && i < j < |Span(a, b)|
    ensures Span(a, b)[i] < Span(a, b)[j]
  {
    SpanLength(a, b);
    SpanAt(a, b, i);
    SpanAt(a, b, j);
  }

  /** The counter behind every person's identifier. */
  class IdAllocator {
    /** The identifier the next person gets. */
    var next: nat
    /** The identifiers handed out so far, in order. */
    ghost var issued: seq<nat>

    ghost predicate Valid()
      reads this
    {
      1 <= next && issued == Span(1, next)
    }

    /** The counter starts at 1, so the first person gets identifier 1. */
    constructor ()
      ensures Valid() && next == 1 && issued == []
    {
      next := 1;
      issued := [];
    }
  }

  /** The fields a person has: its identifier, name and age. */
  datatype Person = Person(id: nat, name: string, age: int)
  {
    /** The line view_info formats. The identifier can be read back from
        it: after the "ID: " prefix come exactly its digits, then the rest
        of the line. */
    function ViewInfo(): (s: string)
      ensures 4 <= |s| && s[..4] == "ID: "
      ensures ReadNat(s[4..]) == (id, ", Name: " + name + ", Age: " + IntToString(age))
    {
      var rest := ", Name: " + name + ", Age: " + IntToString(age);
      ReadNatAfterNatToString(id, rest);
      assert ("ID: " + (NatToString(id) + rest))[4..] == NatToString(id) + rest;
      "ID: " + (NatToString(id) + rest)
    }
  }

  /** Constructing a person: it takes the current counter value as its
      identifier, the counter goes up by one, and name and age are stored as
      given. */
  method NewPerson(alloc: IdAllocator, name: string, age: int) returns (p: Person)
    requires alloc.Valid()
    modifies alloc
    ensures alloc.Valid()
    ensures p == Person(old(alloc.next), name, age)
    ensures alloc.next == old(alloc.next) + 1
    ensures alloc.issued == old(alloc.issued) + [p.id]
    ensures forall i :: 0 <= i < |old(alloc.issued)| ==> old(alloc.issued)[i] < p.id
  {
    p := Person(alloc.next, name, age);
    SpanLength(1, alloc.next);
    forall i | 0 <= i < |alloc.issued| ensures alloc.issued[i] < p.id {
      SpanAt(1, alloc.next, i);
    }
    alloc.next := alloc.next + 1;
    alloc.issued := alloc.issued + [p.id];
  }

  /** People with different identifiers have different view_info lines. */
  lemma ViewInfoDistinguishesIds(p: Person, q: Person)
    requires p.id != q.id
    ensures p.ViewInfo() != q.ViewInfo()
  {
  }

  /** A patient: a person with a free-text medical record. */
  datatype Patient = Patient(person: Person, medicalRecord: string)
  {
    function Id(): nat {
      person.id
    }
  }

  /** Constructing a patient allocates its identifier like any other person. */
  method NewPatient(alloc: IdAllocator, name: string, age: int, medicalRecord: string) returns (p: Patient)
    requires alloc.Valid()
    modifies alloc
    ensures alloc.Valid()
    ensures p == Patient(Person(old(alloc.next), name, age), medicalRecord)
    ensures alloc.next == old(alloc.next) + 1
    ensures alloc.issued == old(alloc.issued) + [p.Id()]
    ensures forall i :: 0 <= i < |old(alloc.issued)| ==> old(alloc.issued)[i] < p.Id()
  {
    var person := NewPerson(alloc, name, age);
    p := Patient(person, medicalRecord);
  }
}
