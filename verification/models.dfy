/**
 The data the student service works on: the `Student` record, Go's
 `(value, error)` return pairs, and the repository the service delegates to.

 The repository's implementation is not part of this model. It is represented
 by what each of its methods returns in the current storage state, and the
 service reports every repository call it issues, so that "the repository is
 not touched" can be stated as an empty call list.
 */
module Models {

  /** Nil/non-nil: a Go pointer or a Go `error`. */
  datatype Option<+T> = None | Some(value: T)

  /** A student record as bound from a JSON body. A missing field is its zero value. */
  datatype Student = Student(id: string, name: string, gpa: real)

  /** A Go result pair `(T, error)`; `err == None` is a nil error. */
  datatype Outcome<T> = Outcome(value: T, err: Option<string>)

  /** One call from the service into the repository, with its arguments. */
  datatype RepoCall =
    | GetAllCall
    | GetByIdCall(id: string)
    | CreateCall(student: Student)
    | UpdateCall(id: string, student: Student)
    | DeleteCall(id: string)

  /**
   What each repository method would return if called now. The error strings
   are arbitrary: nothing is assumed about duplicate ids or missing records.
   */
  datatype Repository = Repository(
    getAll: () -> Outcome<seq<Student>>,
    getById: string -> Outcome<Option<Student>>,
    create: Student -> Option<string>,
    update: (string, Student) -> Outcome<Option<Student>>,
    delete: string -> Option<string>)

  /** A value together with the repository calls issued to produce it, in order. */
  datatype Traced<T> = Traced(value: T, calls: seq<RepoCall>)
}
