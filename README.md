# Hospital records core, modelled in Dafny

The model covers the data-management core of a small in-memory hospital-records manager:

- A **person identifier counter**. It starts at 1 and goes up by one each time a person is built. Patients and staff members share it.
- **People**:
  - a person, with an identifier, a name and an age, and its `view_info` line;
  - a patient, which is a person with a medical record;
  - a staff member, with a role, a salary and a department label.
- A **department**, with a table of patients and a table of staff members, both keyed by identifier. Both add operations reject an identifier already present. `add_staff` writes the department's name into the member's label before that check.
- A **hospital**, with a table of departments keyed by name. It can add, remove, look up and list departments, and it reports a summary counted afresh on every call.

Each operation's reply is one fixed sentence. The model returns a `Status` value, and `Status.Message()` gives the exact sentence.

Three entities are objects, because the code changes them in place: `Hospitals.Hospital`, `Departments.Department` and `Staffing.Staff`. Departments are shared. `get_department` returns the object the hospital holds, so a patient added to it shows in the next summary. The client methods `AdmitPatient` and `AdmitStaff` prove this. They build the patient or staff member only after the lookup succeeds, as the caller does. A person and a patient are never changed once built, so they are datatypes.

The dictionary of departments keeps its keys in insertion order. The model keeps that order as a sequence beside the map, and proves that the summary totals do not depend on it. Each total equals the number of (department, identifier) entries.

Files:

| file | module | contents |
|---|---|---|
| `decimal.dfy` | `Decimal` | decimal text of naturals and integers, with read-back lemmas |
| `wrappers.dfy` | `Wrappers` | `Option`, the result of a lookup |
| `tallies.dfy` | `Tallies` | key sequences without repeats, removal from them, and sums of set sizes over them |
| `outcomes.dfy` | `Outcomes` | the operation outcomes and their sentences; how callers read them |
| `persons.dfy` | `Persons` | the identifier counter, people and patients |
| `staffing.dfy` | `Staffing` | staff members |
| `departments.dfy` | `Departments` | departments and their description line |
| `hospitals.dfy` | `Hospitals` | the hospital, its summary, and the client methods |

## Model

| member | source | states |
|---|---|---|
| Persons.IdAllocator.constructor | Models/person.py:18 | The counter starts at 1 and nothing has been issued, so the first person gets identifier 1. |
| Persons.NewPerson | Models/person.py:28-32 | The new person's identifier is the counter value before the call. The counter goes up by exactly one. The identifier joins the issued log and is larger than every identifier issued before. Name and age are stored as given. |
| Persons.SpanAt | Models/person.py:28-29 | The log of issued identifiers after counting from 1 up to some value is 1, 2, … in order: entry i is 1 + i. |
| Persons.SpanStrictlyIncreasing | Models/person.py:18-29 | Identifiers issued one after another strictly increase, so no two people share one. |
| Persons.Person.ViewInfo | Models/person.py:41 | The `view_info` line starts with "ID: ". Reading a number after that prefix gives back exactly the identifier, followed by ", Name: ", the name, ", Age: " and the age (whose text Decimal.ReadIntAfterIntToString reads back). Persons.ViewInfoDistinguishesIds draws the consequence. |
| Persons.ViewInfoDistinguishesIds | Models/person.py:41 | People with different identifiers have different `view_info` lines. |
| Persons.NewPatient | GUI/APP.py:1031 | Building a patient allocates its identifier through the person constructor, with the same counter effects as NewPerson. Name, age and record are stored as given. |
| Staffing.Staff.constructor | Models/staff.py:21-29 | It allocates exactly one identifier through the person constructor, with the same counter effects as NewPerson. Role, department label and salary are stored as given. |
| Departments.Department.constructor | Models/department.py:11-14 | A new department keeps its name, and both tables are empty. |
| Departments.Describe | Models/department.py:17 | The `__repr__` line starts with "Department Name : ", the name and ", Patients: ". Reading a number right after that head gives back the patient count, followed by ", Staff_Members: " and the staff count's digits. Departments.DescribeDeterminesCounts shows the line determines both counts. |
| Departments.Department.ToString | Models/department.py:16-17 | A department's `__repr__` is that line for its name and its current table sizes: the number after the head is the size of the patient table, and the staff table's size follows the separator. |
| Departments.DescribeDeterminesCounts | Models/department.py:16-17 | For one name, two `__repr__` lines are equal exactly when both the patient counts and the staff counts are equal, so the line determines both sizes. |
| Departments.Department.AddPatient | Models/department.py:19-30 | A present identifier gives "already exists" and leaves the table unchanged. A fresh identifier gives "added" and files the patient under its identifier. The table grows by one exactly on success. The staff table is unchanged, and entries stay filed under their own identifiers. |
| Departments.Department.AddStaff | Models/department.py:32-46 | The member's label becomes the department's name even when the member is rejected. A present identifier leaves the staff table unchanged. A fresh one files the member, and the table grows by one. The patient table is unchanged, and filing is preserved. |
| Hospitals.Hospital.constructor | Core/hospital.py:10-13 | A new hospital keeps the given name and has no departments. |
| Hospitals.Hospital.AddDepartment | Core/hospital.py:20-26 | A name already present gives "already exists" and leaves the table and its order unchanged. A fresh name gives "added" and maps the name to the department, keeping every other entry, appended last in order. The table grows by exactly one. Every key still equals its department's name. |
| Hospitals.Hospital.RemoveDepartment | Core/hospital.py:29-35 | An absent name gives "not found" and changes nothing. A present name gives "removed" and deletes exactly that key. The other entries keep their relative order, the lookup of the name then finds nothing, and the table shrinks by one. |
| Hospitals.Hospital.GetDepartment | Core/hospital.py:38-40 | The lookup finds something exactly when the name is a key. What it finds is the very object held under that key, and it carries that name. |
| Hospitals.Hospital.ListDepartments | Core/hospital.py:43-45 | Returns the held department objects in insertion order, each one exactly once. Every held department is in the list, and the list is as long as the table. |
| Hospitals.Hospital.GetSummary | Core/hospital.py:52-65 | The summary has the hospital's name and the number of departments. The patient and staff totals equal the number of (department, identifier) entries over the current departments, whatever the order of the departments. |
| Hospitals.SummaryOf | Core/hospital.py:54-62 | The summary carries the hospital's name. When the table and the key order are filed consistently, the department total is the number of keys in order, and the department-by-department sums of table sizes equal the number of (department, identifier) entries, so they do not depend on the order. Hospitals.SummaryAfterInsert and Hospitals.SummaryAfterDelete give its change under the table operations. |
| Hospitals.SummaryAfterInsert | Core/hospital.py:52-65 | After a department is filed under a fresh name, the summary has one more department. Its patient and staff totals grow by exactly that department's table sizes. |
| Hospitals.SummaryAfterDelete | Core/hospital.py:52-65 | After a present department is deleted, the summary has one fewer department. Its totals shrink by exactly the removed department's table sizes. |
| Hospitals.FiledAfterInsert | Core/hospital.py:25 | Filing a department under its own fresh name, last in order, keeps every key equal to its department's name and the order a repeat-free list of the keys. |
| Hospitals.FiledAfterDelete | Core/hospital.py:34 | Deleting a key from the table and from the order keeps the filing. |
| Hospitals.FiledDistinct | Core/hospital.py:25 | Departments held under different names are different objects. |
| Hospitals.PatientIdsOf | Core/hospital.py:57-59 | The per-department patient identifier sets have exactly the table's keys. |
| Hospitals.StaffIdsOf | Core/hospital.py:60-62 | The same holds for the staff identifier sets. |
| Hospitals.AddNewPatientTo | GUI/APP.py:1031-1032 | Once the department is found, the patient is built with the next identifier and handed to the department object the hospital holds. The counter goes up by one. The department's tables change exactly as AddPatient says and it stays valid. In the hospital's per-department identifier sets only that department's patient set changes. |
| Hospitals.AdmitPatient | GUI/APP.py:1026-1032 | The caller looks up a department; only if it is found is the patient built and added to the object it got back. An unknown name is reported and changes nothing: no department is touched and the counter keeps its value. Otherwise the department's own outcome is returned, its new patient table is the old one with the new patient filed exactly when it was added, its staff table is unchanged and it stays valid, so admissions can be chained. The next patient total is exactly one higher when the patient was added, and unchanged otherwise. The department and staff totals are unchanged. |
| Hospitals.AddNewStaffTo | GUI/APP.py:1060-1061 | Once the department is found, a fresh staff member is built with the next identifier, labelled with the department's name and handed to the department object the hospital holds. The department's tables change exactly as AddStaff says, and only that department's staff identifier set changes. |
| Hospitals.AdmitStaff | GUI/APP.py:1055-1061 | The same for a staff member. An unknown name builds no member, touches no department and leaves the counter alone. Otherwise the new member is returned with its name, age, role, salary and the department's name as its label; the department's new staff table is the old one with the member filed exactly when it was added, and its patient table is unchanged. The staff total is exactly one higher on success, and the other totals are unchanged. |
| Tallies.Without | Core/hospital.py:34 | Deleting a key from the insertion order leaves exactly the other keys, with no repeats when there were none. It is one shorter when the key was present, and unchanged when it was absent. |
| Tallies.WithoutKeepsOrder | Core/hospital.py:34 | Deleting a key that sits at position i of a repeat-free order leaves exactly the entries before i followed by those after it, so the other departments keep their relative order. |
| Tallies.ValuesInOrder | Core/hospital.py:45 | The values listed are the map's values at the keys, in key order. |
| Tallies.NoDuplicatesCard | Core/hospital.py:56 | A repeat-free key order has as many entries as the set of keys. |
| Tallies.SumAddKey | Core/hospital.py:57-59 | Summing over a new key adds exactly the size of its set. |
| Tallies.SumRemoveKey | Core/hospital.py:57-59 | Taking a key out of both the order and the map subtracts exactly its set's size. |
| Tallies.SumUpdate | Core/hospital.py:57-59 | Replacing the set under one key changes the sum by exactly the difference in size. This is why an addition to a shared department shows in the next summary. |
| Tallies.SumIsPairCount | Core/hospital.py:57-62 | A sum of set sizes over every key once, in any order, equals the number of (key, member) pairs. |
| Decimal.NatToString | Models/person.py:41 | The decimal text of a natural is non-empty and all digits. It starts with '0' only for zero. |
| Decimal.ValueOfNatToString | Models/person.py:41 | The digits written for n have the value n. |
| Decimal.ReadNatAfterNatToString | Models/person.py:41 | Reading digits from a number's text followed by text that does not start with a digit gives back the number and exactly that text. |
| Decimal.NatToStringPrefixUnique | Models/department.py:17 | A number's text placed before text that does not start with a digit can be split off again uniquely. |
| Decimal.NatToStringInjective | Models/department.py:17 | Two naturals have the same text exactly when they are equal. |
| Decimal.IntToString | Models/person.py:41 | The text of an integer is non-empty and starts with '-' exactly when the integer is negative. |
| Decimal.ReadIntAfterIntToString | Models/person.py:41 | Reading an integer back from its text gives the integer, negative ages included. |
| Outcomes.Status.Message | Core/hospital.py:20-35 | The exact reply sentences: the four of the hospital's table operations (Core/hospital.py lines 23, 26, 32 and 35) and the four of a department's add operations (Models/department.py lines 27, 30, 43 and 46). Each is non-empty, and it ends in '!' exactly for a patient or staff member that was added. Outcomes.MessageInjective and Outcomes.CaseBlindCheckMatchesAdded state how the sentences tell the outcomes apart. |
| Outcomes.MessageInjective | Models/department.py:26-46 | The eight reply sentences, those at Models/department.py lines 27, 30, 43 and 46 and those at Core/hospital.py lines 23, 26, 32 and 35, are pairwise different, so a sentence identifies its outcome. |
| Outcomes.CallerSeesDepartmentSuccess | GUI/APP.py:1001 | The caller's test finds "successfully" in the department-added sentence. |
| Outcomes.CallerMissesPatientSuccess | GUI/APP.py:1034 | The patient-added sentence is a success, yet the caller's case-sensitive test does not find "successfully" in it. |
| Outcomes.CallerMissesStaffSuccess | GUI/APP.py:1063 | The same for the staff-added sentence. |
| Outcomes.CaseBlindCheckMatchesAdded | GUI/APP.py:1034 | The case-blind test passes exactly the sentences of adds that added something. |

## Left out

- The desktop and console front ends are not part of this model: GUI/APP.py, Models/menu.py and main.py. They do input, output, dialogs and prompts. The one exception is the sequence of calls that AdmitPatient and AdmitStaff take from them: look up a department, and only then build the patient or staff member and add it. The form's check for empty fields before the lookup is input validation of the front end and is left out.
- Models/patient.py is a console script over a global list of dictionaries, driven by `input` and `print`. It is not part of this model.
- The `Patient` class is not among the sources. It is modelled as a person with a medical record, from its construction at GUI/APP.py:1031. Only its identifier matters to the core.
- `display_info` of a staff member is left out, because it only prints.
- The salary is stored as a `real` and never computed on, so floating point does not arise.
- Persons.IdAllocator: the class-level counter is an explicit object handed to each constructor. Python's process-wide global state has no direct Dafny counterpart. The ghost log of issued identifiers is what states uniqueness.
- Names, ages, roles and identifiers are fixed (`const`) fields. Python attributes could be reassigned, but the core never does so. Only the staff department label and the tables change.
- Python's dynamic typing and the absence of input validation are not modelled. Ages are any integer, and names are any text.
- Hospitals.Hospital.Valid does not include the invariant of each held department. Hospitals.AdmitPatient and Hospitals.AdmitStaff require it of the department they add to and promise it again afterwards, as do the department's constructor and its add operations, so a department reached only through these keeps it.
- Hospitals.Hospital.AddDepartment: its contract states the new table, the new order and the new size. The effect on the summary is stated separately, by Hospitals.SummaryAfterInsert over the same values that Hospitals.Hospital.GetSummary reads.
- Hospitals.Hospital.RemoveDepartment: likewise, its effect on the summary is stated by Hospitals.SummaryAfterDelete.
- One might expect an identifier never to appear in two departments, but the code does not enforce it. The same patient or staff object can be added to two departments. The summary then counts it twice, and a second `add_staff` of one staff member relabels it. The model follows the code: totals count (department, identifier) entries, and AddStaff writes the label on every call.

## Findings

| source | as written | input that shows it | evidently intended | confidence | as-written member | corrected member |
|---|---|---|---|---|---|---|
| GUI/APP.py:1034 | a successful patient add is recognised by a case-sensitive search for "successfully" in the reply | adding a fresh patient: the reply "Patient Added Successfully!" has the word capitalised, so the success branch (clearing the form, logging the activity, refreshing the counts) is skipped | recognise success by a case-blind match of the word | not executed | Outcomes.CallerMissesPatientSuccess | Outcomes.CaseBlindCheckMatchesAdded |
| GUI/APP.py:1063 | the same test on the staff reply | adding a fresh staff member: the reply "Staff Member Added Successfully!" fails the test | recognise success by a case-blind match of the word | not executed | Outcomes.CallerMissesStaffSuccess | Outcomes.CaseBlindCheckMatchesAdded |
