/**
 The student service: the validator and the five operations that sit between
 the HTTP handlers and the repository.

 Validation checks the id, then the name, then the GPA range, and reports
 only the first failure, as one of three fixed messages. Create and update
 validate before they reach the repository; the read and delete operations
 hand the repository's answer back unchanged.
 */
module StudentService {
  import opened Models

  const IdEmptyMessage: string := "id must not be empty"
  const NameEmptyMessage: string := "name must not be empty"
  const GpaRangeMessage: string := "gpa must be between 0.00 and 4.00"

  const MinGpa: real := 0.0
  const MaxGpa: real := 4.0

  /** The three ways a candidate can be invalid, in the order they are checked. */
  datatype Reason = EmptyId | EmptyName | GpaOutOfRange

  function Message(v: Reason): string {
    match v
    case EmptyId => IdEmptyMessage
    case EmptyName => NameEmptyMessage
    case GpaOutOfRange => GpaRangeMessage
  }

  /** Position of a check in the validation order. */
  function Rank(v: Reason): nat {
    match v
    case EmptyId => 0
    case EmptyName => 1
    case GpaOutOfRange => 2
  }

  /** Whether `s` breaks the invariant that reason `v` names. */
  predicate Violates(s: Student, v: Reason) {
    match v
    case EmptyId => |s.id| == 0
    case EmptyName => |s.name| == 0
    case GpaOutOfRange => !(MinGpa <= s.gpa <= MaxGpa)
  }

  /** The invariants every stored student must satisfy: non-empty id and name, GPA in [0, 4]. */
  predicate WellFormed(s: Student) {
    |s.id| > 0 && |s.name| > 0 && MinGpa <= s.gpa <= MaxGpa
  }

  /** `v` is a violation of `s` and no violation of `s` is checked before it. */
  ghost predicate FirstViolation(s: Student, v: Reason) {
    Violates(s, v) && forall w :: Violates(s, w) ==> Rank(v) <= Rank(w)
  }

  /** The set of texts the validator can produce. */
  function ValidationMessages(): set<string> {
    {IdEmptyMessage, NameEmptyMessage, GpaRangeMessage}
  }

  /**
   `ValidateStudent`: nil exactly for well-formed students, otherwise the
   message of the earliest failed check.
   */
  function ValidateStudent(s: Student): (r: Option<string>)
    ensures r == None <==> WellFormed(s)
    ensures r.Some? ==> exists v :: FirstViolation(s, v) && r.value == Message(v)
    ensures r.Some? ==> r.value in ValidationMessages()
  {
    if s.id == "" then
      assert FirstViolation(s, EmptyId);
      Some(IdEmptyMessage)
    else if s.name == "" then
      assert FirstViolation(s, EmptyName);
      Some(NameEmptyMessage)
    else if s.gpa < 0.0 || s.gpa > 4.0 then
      assert FirstViolation(s, GpaOutOfRange);
      Some(GpaRangeMessage)
    else
      None
  }

  /** `GetStudents`: one `GetAll` call, whose answer is returned as it is. */
  function GetStudents(repo: Repository): (r: Traced<Outcome<seq<Student>>>)
    ensures r.calls == [GetAllCall]
    ensures r.value == repo.getAll()
  {
    Traced(repo.getAll(), [GetAllCall])
  }

  /** `GetStudentByID`: one `GetByID(id)` call, whose answer is returned as it is. */
  function GetStudentByID(repo: Repository, id: string): (r: Traced<Outcome<Option<Student>>>)
    ensures r.calls == [GetByIdCall(id)]
    ensures r.value == repo.getById(id)
  {
    Traced(repo.getById(id), [GetByIdCall(id)])
  }

  /**
   `CreateStudent`: an invalid student is refused with the validation error
   before the repository is reached; a valid one is handed to `Create`
   unmodified and `Create`'s error is returned.
   */
  function CreateStudent(repo: Repository, s: Student): (r: Traced<Option<string>>)
    ensures r.calls == [] <==> !WellFormed(s)
    ensures !WellFormed(s) ==> r.value.Some? && r.value == ValidateStudent(s)
    ensures WellFormed(s) ==> r.calls == [CreateCall(s)] && r.value == repo.create(s)
  {
    var err := ValidateStudent(s);
    if err.Some? then Traced(err, [])
    else Traced(repo.create(s), [CreateCall(s)])
  }

  /**
   `UpdateStudent`: an invalid candidate yields a nil student and the
   validation error, whatever the id; a valid one is handed to `Update`
   unmodified, together with the id, and `Update`'s answer is returned.
   */
  function UpdateStudent(repo: Repository, id: string, s: Student): (r: Traced<Outcome<Option<Student>>>)
    ensures r.calls == [] <==> !WellFormed(s)
    ensures !WellFormed(s) ==> r.value.value == None && r.value.err.Some? && r.value.err == ValidateStudent(s)
    ensures WellFormed(s) ==> r.calls == [UpdateCall(id, s)] && r.value == repo.update(id, s)
  {
    var err := ValidateStudent(s);
    if err.Some? then Traced(Outcome(None, err), [])
    else Traced(repo.update(id, s), [UpdateCall(id, s)])
  }

  /** `DeleteStudent`: one `Delete(id)` call, whose error is returned as it is. */
  function DeleteStudent(repo: Repository, id: string): (r: Traced<Option<string>>)
    ensures r.calls == [DeleteCall(id)]
    ensures r.value == repo.delete(id)
  {
    Traced(repo.delete(id), [DeleteCall(id)])
  }

  /** Only creates and updates carry a student, and it must be well formed. */
  predicate WritesWellFormed(calls: seq<RepoCall>) {
    forall i :: 0 <= i < |calls| ==>
      (calls[i].CreateCall? ==> WellFormed(calls[i].student)) &&
      (calls[i].UpdateCall? ==> WellFormed(calls[i].student))
  }
}
