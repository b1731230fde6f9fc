/**
 Properties of the validator and of the service operations that relate
 several calls or quantify over all candidates.
 */
module ServiceProperties {
  import opened Models
  import opened StudentService

  /** An empty id is reported whatever the name and the GPA are. */
  lemma IdCheckedFirst(name: string, gpa: real)
    ensures ValidateStudent(Student("", name, gpa)) == Some(IdEmptyMessage)
  {
  }

  /** With an id present, an empty name is reported whatever the GPA is. */
  lemma NameCheckedSecond(id: string, gpa: real)
    requires id != ""
    ensures ValidateStudent(Student(id, "", gpa)) == Some(NameEmptyMessage)
  {
  }

  /** With id and name present, the GPA is rejected exactly outside the closed range [0, 4]. */
  lemma GpaBoundsInclusive(id: string, name: string, gpa: real)
    requires id != "" && name != ""
    ensures ValidateStudent(Student(id, name, gpa)) == Some(GpaRangeMessage) <==> gpa < 0.0 || gpa > 4.0
    ensures ValidateStudent(Student(id, name, gpa)) == None <==> 0.0 <= gpa <= 4.0
  {
  }

  /** The two bounds themselves are accepted; values just outside them are not. */
  lemma GpaBoundaryValues()
    ensures ValidateStudent(Student("s1", "Ann", 0.0)) == None
    ensures ValidateStudent(Student("s1", "Ann", 4.0)) == None
    ensures ValidateStudent(Student("s1", "Ann", -0.01)) == Some(GpaRangeMessage)
    ensures ValidateStudent(Student("s1", "Ann", 4.01)) == Some(GpaRangeMessage)
    ensures ValidateStudent(Student("", "", 9.0)) == Some(IdEmptyMessage)
  {
  }

  /** Different reasons have different messages, so a message identifies its reason. */
  lemma MessagesDistinct(v: Reason, w: Reason)
    ensures Message(v) == Message(w) <==> v == w
  {
  }

  /** Whatever the validator reports is the message of the earliest violated check. */
  lemma FirstViolationReported(s: Student, v: Reason)
    requires FirstViolation(s, v)
    ensures ValidateStudent(s) == Some(Message(v))
  {
  }

  /** Every one of the three messages is produced for some candidate, and no other text is. */
  lemma ValidatorMessagesExactly(m: string)
    ensures m in ValidationMessages() <==> exists s :: ValidateStudent(s) == Some(m)
  {
    if m == IdEmptyMessage {
      assert ValidateStudent(Student("", "", 0.0)) == Some(m);
    } else if m == NameEmptyMessage {
      assert ValidateStudent(Student("s", "", 0.0)) == Some(m);
    } else if m == GpaRangeMessage {
      assert ValidateStudent(Student("s", "n", 5.0)) == Some(m);
    }
  }

  /** No service operation hands the repository a student that fails validation. */
  lemma ServiceWritesOnlyWellFormed(repo: Repository, id: string, s: Student)
    ensures WritesWellFormed(CreateStudent(repo, s).calls)
    ensures WritesWellFormed(UpdateStudent(repo, id, s).calls)
    ensures WritesWellFormed(GetStudents(repo).calls)
    ensures WritesWellFormed(GetStudentByID(repo, id).calls)
    ensures WritesWellFormed(DeleteStudent(repo, id).calls)
  {
  }

  /** Refusing an invalid create depends on nothing the repository would say. */
  lemma InvalidCreateIgnoresRepository(repo1: Repository, repo2: Repository, s: Student)
    requires !WellFormed(s)
    ensures CreateStudent(repo1, s) == CreateStudent(repo2, s)
  {
  }

  /**
   Refusing an invalid update depends neither on the id nor on the
   repository, so an unknown id still gets the validation error.
   */
  lemma InvalidUpdateIgnoresIdAndRepository(repo1: Repository, repo2: Repository, id1: string, id2: string, s: Student)
    requires !WellFormed(s)
    ensures UpdateStudent(repo1, id1, s) == UpdateStudent(repo2, id2, s)
    ensures UpdateStudent(repo1, id1, s).value.err.Some?
  {
  }
}
