/** What the mutating operations report. Each operation of the source returns
    one fixed sentence; the model returns a Status and gives the sentence by
    Message(). */
module Outcomes {

  datatype Status =
    | DepartmentAdded
    | DepartmentExists
    | DepartmentRemoved
    | DepartmentNotFound
    | PatientAdded
    | PatientExists
    | StaffAdded
    | StaffExists
  {
    /** The sentence returned for this outcome. The department operations
        end their sentences with a full stop, the department's own add
        operations with an exclamation mark once they have added. */
    function Message(): (m: string)
      ensures |m| > 0 && (m[|m| - 1] == '!' <==> PatientAdded? || StaffAdded?)
    {
      match this
      case DepartmentAdded => "Department added successfully."
      case DepartmentExists => "Department already exists."
      case DepartmentRemoved => "Department removed."
      case DepartmentNotFound => "Department not found."
      case PatientAdded => "Patient Added Successfully!"
      case PatientExists => "The Patient Already Exists."
      case StaffAdded => "Staff Member Added Successfully!"
      case StaffExists => "Staff Member Already Exists."
    }

    /** The operation changed the collection it was asked to change. */
    predicate Succeeded() {
      DepartmentAdded? || DepartmentRemoved? || PatientAdded? || StaffAdded?
    }

    /** The operation was an add and it added. */
    predicate Added() {
      DepartmentAdded? || PatientAdded? || StaffAdded?
    }
  }

  /** t occurs in s starting at index i. */
  ghost predicate OccursAt(s: string, t: string, i: nat) {
    i + |t| <= |s| && s[i..i + |t|] == t
  }

  /** Python's `t in s` on strings: t occurs in s as a contiguous piece. */
  ghost predicate Contains(s: string, t: string) {
    exists i: nat :: OccursAt(s, t, i)
  }

  /** The test a caller of the add operations applies to the returned
      sentence before it reports success: a case-sensitive search for the
      word "successfully". */
  ghost predicate CallerSeesSuccess(message: string) {
    Contains(message, "successfully")
  }

  /** A string whose first n characters hold no lower-case 's' and which is
      shorter than n + |t| contains no t that starts with 's'. */
  lemma {:induction false} NoOccurrenceBeforeS(s: string, t: string, n: nat)
    requires n <= |s| && 's' !in s[..n]
    requires |t| > 0 && t[0] == 's' && |s| < n + |t|
    ensures !Contains(s, t)
  {
    forall i: nat ensures !OccursAt(s, t, i) {
      if i < n {
        assert s[..n][i] == s[i];
      }
    }
  }

  lemma CallerSeesDepartmentSuccess()
    ensures DepartmentAdded.Succeeded() && CallerSeesSuccess(DepartmentAdded.Message())
  {
    assert OccursAt(DepartmentAdded.Message(), "successfully", 17);
  }

  /** The caller's test rejects the success sentence of add_patient, whose
      word is capitalised. */
  lemma CallerMissesPatientSuccess()
    ensures PatientAdded.Succeeded() && !CallerSeesSuccess(PatientAdded.Message())
  {
    var p := PatientAdded.Message();
    assert 's' !in p[..16];
    NoOccurrenceBeforeS(p, "successfully", 16);
  }

  /** The same holds for the success sentence of add_staff. */
  lemma CallerMissesStaffSuccess()
    ensures StaffAdded.Succeeded() && !CallerSeesSuccess(StaffAdded.Message())
  {
    var s := StaffAdded.Message();
    assert 's' !in s[..21];
    NoOccurrenceBeforeS(s, "successfully", 21);
  }

  /** ASCII lower-casing of one character. */
  function Lower(c: char): (l: char)
    ensures l == 'c' <==> c == 'c' || c == 'C'
  {
    if 'A' <= c <= 'Z' then (c as int + 32) as char else c
  }

  /** t, written in lower case, occurs in s from index i when s is read
      lower-cased. */
  ghost predicate OccursAtAnyCase(s: string, t: string, i: nat) {
    i + |t| <= |s| && forall j :: 0 <= j < |t| ==> Lower(s[i + j]) == t[j]
  }

  /** Python's `t in s.lower()` for a lower-case t. */
  ghost predicate ContainsAnyCase(s: string, t: string) {
    exists i: nat :: OccursAtAnyCase(s, t, i)
  }

  /** The test as evidently intended: the word "successfully" in any case. */
  ghost predicate CallerSeesSuccessAnyCase(message: string) {
    ContainsAnyCase(message, "successfully")
  }

  /** A sentence with no letter c in either case fails the intended test. */
  lemma {:induction false} NoCNoSuccess(message: string)
    requires 'c' !in message && 'C' !in message
    ensures !CallerSeesSuccessAnyCase(message)
  {
    forall i: nat ensures !OccursAtAnyCase(message, "successfully", i) {
      if i + 12 <= |message| {
        assert message[i + 2] in message;
        assert Lower(message[i + 2]) != "successfully"[2];
      }
    }
  }

  lemma LowerWord()
    ensures forall j :: 0 <= j < 12 ==> Lower("Successfully"[j]) == "successfully"[j]
    ensures forall j :: 0 <= j < 12 ==> Lower("successfully"[j]) == "successfully"[j]
  {
  }

  /** A sentence holding the word from index i, capitalised or not, passes
      the intended test. */
  lemma {:induction false} WordAtPassesAnyCase(message: string, i: nat)
    requires i + 12 <= |message|
    requires message[i..i + 12] == "Successfully" || message[i..i + 12] == "successfully"
    ensures CallerSeesSuccessAnyCase(message)
  {
    LowerWord();
    forall j | 0 <= j < 12 ensures Lower(message[i + j]) == "successfully"[j] {
      assert message[i + j] == message[i..i + 12][j];
    }
    assert OccursAtAnyCase(message, "successfully", i);
  }

  /** The word begins at index 17 of the department sentence. */
  lemma DepartmentAddedPassesAnyCase()
    ensures CallerSeesSuccessAnyCase(DepartmentAdded.Message())
  {
    var m := DepartmentAdded.Message();
    assert m[17..29] == "successfully";
    WordAtPassesAnyCase(m, 17);
  }

  /** The capitalised word begins at index 14 of the patient sentence. */
  lemma PatientAddedPassesAnyCase()
    ensures CallerSeesSuccessAnyCase(PatientAdded.Message())
  {
    var m := PatientAdded.Message();
    assert m[14..26] == "Successfully";
    WordAtPassesAnyCase(m, 14);
  }

  /** The capitalised word begins at index 19 of the staff sentence. */
  lemma StaffAddedPassesAnyCase()
    ensures CallerSeesSuccessAnyCase(StaffAdded.Message())
  {
    var m := StaffAdded.Message();
    assert m[19..31] == "Successfully";
    WordAtPassesAnyCase(m, 19);
  }

  // The remaining sentences have no letter c, so none passes.

  lemma DepartmentExistsFailsAnyCase()
    ensures !CallerSeesSuccessAnyCase(DepartmentExists.Message())
  {
    NoCNoSuccess(DepartmentExists.Message());
  }

  lemma DepartmentRemovedFailsAnyCase()
    ensures !CallerSeesSuccessAnyCase(DepartmentRemoved.Message())
  {
    NoCNoSuccess(DepartmentRemoved.Message());
  }

  lemma DepartmentNotFoundFailsAnyCase()
    ensures !CallerSeesSuccessAnyCase(DepartmentNotFound.Message())
  {
    NoCNoSuccess(DepartmentNotFound.Message());
  }

  lemma PatientExistsFailsAnyCase()
    ensures !CallerSeesSuccessAnyCase(PatientExists.Message())
  {
    NoCNoSuccess(PatientExists.Message());
  }

  lemma StaffExistsFailsAnyCase()
    ensures !CallerSeesSuccessAnyCase(StaffExists.Message())
  {
    NoCNoSuccess(StaffExists.Message());
  }

  /** With the case-blind test, a caller reports success exactly for the
      outcomes in which an add added something. */
  lemma CaseBlindCheckMatchesAdded(st: Status)
    ensures CallerSeesSuccessAnyCase(st.Message()) <==> st.Added()
  {
    match st
    case DepartmentAdded => DepartmentAddedPassesAnyCase();
    case PatientAdded => PatientAddedPassesAnyCase();
    case StaffAdded => StaffAddedPassesAnyCase();
    case DepartmentExists => DepartmentExistsFailsAnyCase();
    case DepartmentRemoved => DepartmentRemovedFailsAnyCase();
    case DepartmentNotFound => DepartmentNotFoundFailsAnyCase();
    case PatientExists => PatientExistsFailsAnyCase();
    case StaffExists => StaffExistsFailsAnyCase();
  }

  /** The messages tell the outcomes apart. */
  lemma MessageInjective(a: Status, b: Status)
    ensures a.Message() == b.Message() <==> a == b
  {
  }
}
