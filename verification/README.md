# Student API: validation and error routing

A Dafny model of the decision logic of a small Gin-based student-record API.
The API has two layers with logic in them:

- **The student service** (`services/student_service.go`) validates a candidate `Student`. It checks that the id is non-empty, then that the name is non-empty, then that the GPA lies in [0.00, 4.00], and it stops at the first failure with one of three fixed messages. `CreateStudent` and `UpdateStudent` validate before they call the repository. `GetStudents`, `GetStudentByID` and `DeleteStudent` return the repository's answer unchanged.
- **The HTTP handlers** (`handlers/student_handler.go`) map each service outcome to a status code and a JSON body. They recognise validation errors by comparing the error text with their own copies of the three messages. Every other error goes to 500 (list, create) or 404 (get, update, delete).

Files:

- `models.dfy` (module `Models`) defines `Student`, Go's `(value, error)` pair as `Outcome`, and the repository as a `Repository` record. That record holds what each repository method would answer right now. It also defines `RepoCall`, one call into the repository with its arguments, and `Traced`, a value paired with the repository calls made to produce it. With these, "the repository is not touched" is stated as an empty call list.
- `student_service.dfy` (module `StudentService`) holds the validator and the five service operations. It also holds an independent statement of what validation should report. `WellFormed` states the three invariants. `Violates` and `Rank` say which checks fail and in what order, and `FirstViolation` picks the earliest failed check.
- `service_properties.dfy` (module `ServiceProperties`) holds lemmas about precedence, the inclusive GPA bounds, the exact message set, and validation happening before any write.
- `student_handler.dfy` (module `StudentHandler`) holds the five handlers. Each one turns the binding outcome and the service's answer into a `Response`.
- `handler_properties.dfy` (module `HandlerProperties`) holds lemmas connecting the handlers to the validator. The handler's texts equal the validator's messages, every validation failure becomes a 400, and other errors are routed per operation.

Two consequences of how the code routes errors:

- The code classifies errors by string comparison, not by symbolic kinds. So a repository error whose text equals a validation message is reported as a 400 with that text. `ValidCreateOutcomes` and `ValidUpdateOutcomes` state this.
- The code has no separate "storage failure" outcome for update. Every update error that is not a validation message becomes 404 "Student not found".

## Model

| member | source | states |
|---|---|---|
| StudentService.ValidateStudent | services/student_service.go:31-48 | nil exactly when the id and name are non-empty and 0 ≤ GPA ≤ 4; otherwise the message of the earliest failed check, always one of the three fixed texts |
| StudentService.GetStudents | services/student_service.go:14-16 | makes exactly one `GetAll` call and returns its list and error unchanged |
| StudentService.GetStudentByID | services/student_service.go:18-20 | makes exactly one `GetByID(id)` call and returns its student pointer and error unchanged |
| StudentService.CreateStudent | services/student_service.go:22-28 | the repository is called iff the student is valid; invalid → validation error and no call; valid → one `Create` with the unmodified student and its error returned |
| StudentService.UpdateStudent | services/student_service.go:51-59 | the repository is called iff the candidate is valid; invalid → nil student and the validation error; valid → one `Update(id, student)` with its result returned unchanged |
| StudentService.DeleteStudent | services/student_service.go:62-64 | makes exactly one `Delete(id)` call and returns its error unchanged |
| ServiceProperties.IdCheckedFirst | services/student_service.go:33-35 | an empty id yields "id must not be empty" whatever the name and GPA |
| ServiceProperties.NameCheckedSecond | services/student_service.go:33-40 | with a non-empty id, an empty name yields "name must not be empty" whatever the GPA |
| ServiceProperties.GpaBoundsInclusive | services/student_service.go:43-47 | with id and name present, the GPA message is returned iff GPA < 0 or GPA > 4, and validation passes iff 0 ≤ GPA ≤ 4 |
| ServiceProperties.GpaBoundaryValues | services/student_service.go:42-45 | 0.00 and 4.00 are accepted, −0.01 and 4.01 are rejected, and an empty id beats an empty name and a bad GPA |
| ServiceProperties.MessagesDistinct | services/student_service.go:34-44 | the three messages are pairwise different, so a message identifies its failed check |
| ServiceProperties.FirstViolationReported | services/student_service.go:31-48 | whenever a check is the earliest one a student fails, validation returns that check's message |
| ServiceProperties.ValidatorMessagesExactly | services/student_service.go:31-48 | a text is one of the three messages iff some student makes validation return it |
| ServiceProperties.ServiceWritesOnlyWellFormed | services/student_service.go:22-59 | no service operation passes the repository a student that fails validation |
| ServiceProperties.InvalidCreateIgnoresRepository | services/student_service.go:24-26 | refusing an invalid create gives the same result whatever the repository would answer |
| ServiceProperties.InvalidUpdateIgnoresIdAndRepository | services/student_service.go:53-55 | refusing an invalid update gives the same error for any id, existing or not, and any repository |
| StudentHandler.GetStudents | handlers/student_handler.go:16-24 | any service error → 500 "Failed to fetch students"; otherwise 200 with the list |
| StudentHandler.GetStudentByID | handlers/student_handler.go:26-35 | any service error → 404 "Student not found"; otherwise 200 with the student (null for a nil pointer) |
| StudentHandler.CreateStudent | handlers/student_handler.go:37-58 | a bind failure → 400 "Invalid JSON format" with no service call; status is always 201, 400 or 500; 201 iff the service succeeded, echoing the bound student; 500 always carries "Failed to create student" |
| StudentHandler.UpdateStudent | handlers/student_handler.go:61-87 | a bind failure → 400 "Invalid JSON format" with no service call; status is always 200, 400 or 404; 200 iff the service succeeded, with the updated student; 404 always carries "Student not found" |
| StudentHandler.DeleteStudent | handlers/student_handler.go:90-102 | any service error → 404 "Student not found"; otherwise 204 with no body |
| HandlerProperties.HandlerTextsMatchValidator | handlers/student_handler.go:47-49 | the handler's validation texts are exactly the validator's message set, and exactly the texts some student makes the validator return |
| HandlerProperties.InvalidCreateIsBadRequest | handlers/student_handler.go:45-51 | an invalid student sent to create → 400 carrying the validator's message verbatim, with no repository call |
| HandlerProperties.InvalidUpdateIsBadRequest | handlers/student_handler.go:72-79 | an invalid student sent to update → 400 carrying the validator's message verbatim, with no repository call, for any id |
| HandlerProperties.ValidCreateOutcomes | handlers/student_handler.go:45-57 | a valid student → one `Create` call; success → 201 echoing the bound input; an error → 500, or 400 with its text when that text equals a validation message |
| HandlerProperties.ValidUpdateOutcomes | handlers/student_handler.go:72-86 | a valid student → one `Update(id, student)` call; success → 200 with the returned student; any error that is not a validation text, storage failures included → 404 "Student not found" |
| HandlerProperties.BadRequestIsBindingOrValidation | handlers/student_handler.go:39-78 | a 400 from create or update is either a bind failure or carries one of the three validation messages |

## Left out

- Gin itself (`gin.Context`, `c.Param`, `ShouldBindJSON`, JSON encoding) is library plumbing. Binding is an `Option<Student>` input, where `None` means the body did not bind, and the path id is a plain string input.
- `net/http` is left out. Status codes are plain integers with the standard values.
- The repository package is not part of this model. Each of its methods is an opaque function in `Repository`, and its error texts are arbitrary strings. No map semantics are assumed: nothing about duplicate ids or missing records.
- `GPA` is a `real`. The IEEE float64 details (NaN, infinities, rounding) are left out because JSON input cannot carry NaN, and the only comparisons are with 0.00 and 4.00, which float64 represents exactly.
- A nil `[]Student` slice serialises as JSON `null` rather than `[]`. The model renders every list as a list, because only the repository, which is not shown, could return a nil slice.
- Sequences of requests against a live store (create, then get, then delete, then get again) are left out. Their outcomes depend on how the repository stores records, and the repository is not part of this model.
- Concurrency is left out. These files have none.
