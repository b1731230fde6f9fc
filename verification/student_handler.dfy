/**
 The HTTP handlers: each turns the JSON-binding outcome and the service's
 answer into a status code and a JSON body.

 The handlers tell validation errors apart from other errors by comparing the
 error's text with their own copies of the three validation messages. What a
 non-validation error becomes depends on the operation: 500 for create, 404
 for update.
 */
module StudentHandler {
  import opened Models
  import StudentService

  const StatusOK: int := 200
  const StatusCreated: int := 201
  const StatusNoContent: int := 204
  const StatusBadRequest: int := 400
  const StatusNotFound: int := 404
  const StatusInternalServerError: int := 500

  const InvalidJsonText: string := "Invalid JSON format"
  const FetchFailedText: string := "Failed to fetch students"
  const NotFoundText: string := "Student not found"
  const CreateFailedText: string := "Failed to create student"

  /** A response body: `{"error": ...}`, one student, JSON null, a list, or nothing. */
  datatype Body =
    | ErrorJson(error: string)
    | StudentJson(student: Student)
    | NullJson
    | ListJson(students: seq<Student>)
    | NoBody

  datatype Response = Response(status: int, body: Body)

  function ErrorResponse(status: int, text: string): Response {
    Response(status, ErrorJson(text))
  }

  /** A `*Student` rendered as JSON: nil becomes null. */
  function PointerJson(p: Option<Student>): Body {
    match p
    case None => NullJson
    case Some(s) => StudentJson(s)
  }

  /** The handler's own test for a validation error, by comparing texts. */
  predicate IsValidationError(e: string) {
    e == "id must not be empty" ||
    e == "name must not be empty" ||
    e == "gpa must be between 0.00 and 4.00"
  }

  /** `GetStudents`: 500 on any error, else 200 with the list. */
  function GetStudents(repo: Repository): (r: Traced<Response>)
    ensures r.calls == [GetAllCall]
    ensures repo.getAll().err.Some? ==> r.value == ErrorResponse(StatusInternalServerError, FetchFailedText)
    ensures repo.getAll().err.None? ==> r.value == Response(StatusOK, ListJson(repo.getAll().value))
  {
    var out := StudentService.GetStudents(repo);
    if out.value.err.Some? then Traced(ErrorResponse(StatusInternalServerError, FetchFailedText), out.calls)
    else Traced(Response(StatusOK, ListJson(out.value.value)), out.calls)
  }

  /** `GetStudentByID`: 404 on any error, else 200 with the student (null for a nil pointer). */
  function GetStudentByID(repo: Repository, id: string): (r: Traced<Response>)
    ensures r.calls == [GetByIdCall(id)]
    ensures repo.getById(id).err.Some? ==> r.value == ErrorResponse(StatusNotFound, NotFoundText)
    ensures repo.getById(id).err.None? ==> r.value == Response(StatusOK, PointerJson(repo.getById(id).value))
  {
    var out := StudentService.GetStudentByID(repo, id);
    if out.value.err.Some? then Traced(ErrorResponse(StatusNotFound, NotFoundText), out.calls)
    else Traced(Response(StatusOK, PointerJson(out.value.value)), out.calls)
  }

  /**
   `CreateStudent`. `bound` is the result of binding the request body; `None`
   is a binding failure, which is answered without calling the service.
   */
  function CreateStudent(repo: Repository, bound: Option<Student>): (r: Traced<Response>)
    ensures bound.None? ==> r == Traced(ErrorResponse(StatusBadRequest, InvalidJsonText), [])
    ensures bound.Some? ==> r.calls == StudentService.CreateStudent(repo, bound.value).calls
    ensures r.value.status in {StatusCreated, StatusBadRequest, StatusInternalServerError}
    ensures r.value.status == StatusCreated <==>
              bound.Some? && StudentService.CreateStudent(repo, bound.value).value.None?
    ensures r.value.status == StatusCreated ==> r.value.body == StudentJson(bound.value)
    ensures r.value.status == StatusInternalServerError ==> r.value.body == ErrorJson(CreateFailedText)
  {
    match bound
    case None => Traced(ErrorResponse(StatusBadRequest, InvalidJsonText), [])
    case Some(s) =>
      var out := StudentService.CreateStudent(repo, s);
      match out.value
      case Some(e) =>
        if IsValidationError(e) then Traced(ErrorResponse(StatusBadRequest, e), out.calls)
        else Traced(ErrorResponse(StatusInternalServerError, CreateFailedText), out.calls)
      case None => Traced(Response(StatusCreated, StudentJson(s)), out.calls)
  }

  /**
   `UpdateStudent`. A binding failure is answered without calling the
   service; after that, any error that is not a validation error is 404.
   */
  function UpdateStudent(repo: Repository, id: string, bound: Option<Student>): (r: Traced<Response>)
    ensures bound.None? ==> r == Traced(ErrorResponse(StatusBadRequest, InvalidJsonText), [])
    ensures bound.Some? ==> r.calls == StudentService.UpdateStudent(repo, id, bound.value).calls
    ensures r.value.status in {StatusOK, StatusBadRequest, StatusNotFound}
    ensures r.value.status == StatusOK <==>
              bound.Some? && StudentService.UpdateStudent(repo, id, bound.value).value.err.None?
    ensures r.value.status == StatusOK ==>
              r.value.body == PointerJson(StudentService.UpdateStudent(repo, id, bound.value).value.value)
    ensures r.value.status == StatusNotFound ==> r.value.body == ErrorJson(NotFoundText)
  {
    match bound
    case None => Traced(ErrorResponse(StatusBadRequest, InvalidJsonText), [])
    case Some(s) =>
      var out := StudentService.UpdateStudent(repo, id, s);
      match out.value.err
      case Some(e) =>
        if IsValidationError(e) then Traced(ErrorResponse(StatusBadRequest, e), out.calls)
        else Traced(ErrorResponse(StatusNotFound, NotFoundText), out.calls)
      case None => Traced(Response(StatusOK, PointerJson(out.value.value)), out.calls)
  }

  /** `DeleteStudent`: 404 on any error, else 204 with no body. */
  function DeleteStudent(repo: Repository, id: string): (r: Traced<Response>)
    ensures r.calls == [DeleteCall(id)]
    ensures repo.delete(id).Some? ==> r.value == ErrorResponse(StatusNotFound, NotFoundText)
    ensures repo.delete(id).None? ==> r.value == Response(StatusNoContent, NoBody)
  {
    var out := StudentService.DeleteStudent(repo, id);
    if out.value.Some? then Traced(ErrorResponse(StatusNotFound, NotFoundText), out.calls)
    else Traced(Response(StatusNoContent, NoBody), out.calls)
  }
}
