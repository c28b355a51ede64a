/** The values that travel between the handlers and the store: the `students` row, the
    `coursework` row the cascade deletes, the response envelope and the HTTP status. */
module Model {
  import opened Wrappers

  /** A `students` row. `id` is absent until the store assigns one. */
  datatype Student = Student(id: Option<int>, name: string, registeredOn: int, status: int)

  /** A `coursework` row; only its key and its reference to the student matter here. */
  datatype CourseWork = CourseWork(rowId: int, studentId: int)

  /** The HTTP statuses the handlers answer with. */
  datatype HttpStatus = OK | CREATED | ACCEPTED | NOT_FOUND {
    function Code(): (c: int)
      ensures 200 <= c < 500
      ensures (c == 404) == NOT_FOUND?
    {
      match this
      case OK => 200
      case CREATED => 201
      case ACCEPTED => 202
      case NOT_FOUND => 404
    }
  }

  /** The `{success, message, data}` envelope; `data` is null (`None`) on failure. */
  datatype GeneralResponse = GeneralResponse(success: bool, message: string, data: Option<map<string, Student>>)

  /** A response entity: a body together with its status. */
  datatype Response<T> = Response(body: T, status: HttpStatus)
}
