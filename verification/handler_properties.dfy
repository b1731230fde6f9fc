/**
 How the handlers and the validator fit together: every validation failure
 reaches the client as a 400 carrying its message verbatim, and the other
 errors are routed per operation.
 */
module HandlerProperties {
  import opened Models
  import StudentService
  import opened StudentHandler
  import ServiceProperties

  /**
   The handler's three texts are exactly the texts the validator can
   produce, so the handler recognises every validation error and nothing else
   the validator could say.
   */
  lemma HandlerTextsMatchValidator(m: string)
    ensures IsValidationError(m) <==> m in StudentService.ValidationMessages()
    ensures IsValidationError(m) <==> exists s :: StudentService.ValidateStudent(s) == Some(m)
  {
    ServiceProperties.ValidatorMessagesExactly(m);
  }

  /** An invalid student sent to create gets 400 with the validator's message, and storage is not touched. */
  lemma InvalidCreateIsBadRequest(repo: Repository, s: Student)
    requires !StudentService.WellFormed(s)
    ensures StudentService.ValidateStudent(s).Some?
    ensures CreateStudent(repo, Some(s)) == Traced(ErrorResponse(StatusBadRequest, StudentService.ValidateStudent(s).value), [])
  {
  }

  /** An invalid student sent to update gets 400 with the validator's message, whatever the id. */
  lemma InvalidUpdateIsBadRequest(repo: Repository, id: string, s: Student)
    requires !StudentService.WellFormed(s)
    ensures StudentService.ValidateStudent(s).Some?
    ensures UpdateStudent(repo, id, Some(s)) == Traced(ErrorResponse(StatusBadRequest, StudentService.ValidateStudent(s).value), [])
  {
  }

  /**
   A valid student is created by one `Create` call with the bound student;
   success echoes that student with 201, and a repository error is 500,
   unless its text happens to equal a validation message, in which case it is
   reported as a 400 with that text.
   */
  lemma ValidCreateOutcomes(repo: Repository, s: Student)
    requires StudentService.WellFormed(s)
    ensures CreateStudent(repo, Some(s)).calls == [CreateCall(s)]
    ensures repo.create(s).None? ==>
              CreateStudent(repo, Some(s)).value == Response(StatusCreated, StudentJson(s))
    ensures repo.create(s).Some? && !IsValidationError(repo.create(s).value) ==>
              CreateStudent(repo, Some(s)).value == ErrorResponse(StatusInternalServerError, CreateFailedText)
    ensures repo.create(s).Some? && IsValidationError(repo.create(s).value) ==>
              CreateStudent(repo, Some(s)).value == ErrorResponse(StatusBadRequest, repo.create(s).value)
  {
  }

  /**
   A valid student is updated by one `Update` call with the id and the bound
   student; every repository error whose text is not a validation message,
   storage failures included, becomes 404 "Student not found".
   */
  lemma ValidUpdateOutcomes(repo: Repository, id: string, s: Student)
    requires StudentService.WellFormed(s)
    ensures UpdateStudent(repo, id, Some(s)).calls == [UpdateCall(id, s)]
    ensures repo.update(id, s).err.None? ==>
              UpdateStudent(repo, id, Some(s)).value == Response(StatusOK, PointerJson(repo.update(id, s).value))
    ensures repo.update(id, s).err.Some? && !IsValidationError(repo.update(id, s).err.value) ==>
              UpdateStudent(repo, id, Some(s)).value == ErrorResponse(StatusNotFound, NotFoundText)
    ensures repo.update(id, s).err.Some? && IsValidationError(repo.update(id, s).err.value) ==>
              UpdateStudent(repo, id, Some(s)).value == ErrorResponse(StatusBadRequest, repo.update(id, s).err.value)
  {
  }

  /**
   A 400 from create or update is either a binding failure or carries one of
   the three validation messages.
   */
  lemma BadRequestIsBindingOrValidation(repo: Repository, id: string, bound: Option<Student>)
    ensures CreateStudent(repo, bound).value.status == StatusBadRequest ==>
              bound.None? || (CreateStudent(repo, bound).value.body.ErrorJson? &&
                              CreateStudent(repo, bound).value.body.error in StudentService.ValidationMessages())
    ensures UpdateStudent(repo, id, bound).value.status == StatusBadRequest ==>
              bound.None? || (UpdateStudent(repo, id, bound).value.body.ErrorJson? &&
                              UpdateStudent(repo, id, bound).value.body.error in StudentService.ValidationMessages())
  {
  }
}
