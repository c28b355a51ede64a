/** The students resource handlers. Fetch-by-id and list are pure functions of the store
    state; create, update and delete change the store, so they are methods of the
    controller, each specified by an outcome function of the old state that gives the
    response and the new state. The properties of the handlers are lemmas about those
    outcome functions. The clock reading and the store failures are parameters. */
module Controller {
  import opened Wrappers
  import opened Model
  import opened Text
  import opened Like
  import opened Store
  import opened Repositories
  import Query

  const UpdatedMessage: string := "Student update successfully"
  const DeletedMessage: string := "Student deleted successfully"

  /** The message of the exception raised when no row has the id: the id in decimal
      between a fixed prefix and suffix, from which it can be read back. */
  function NotFoundMessage(id: int): (m: string)
    ensures |m| > 26 && m[..16] == "Student with ID " && m[|m| - 10..] == " not found"
    ensures Decimal(m[16..|m| - 10]) && ParseInt(m[16..|m| - 10]) == id
  {
    var m := "Student with ID " + IntToString(id) + " not found";
    assert m[16..|m| - 10] == IntToString(id);
    IntRoundTrip(id);
    m
  }

  /** The envelope the error branch of update and delete answers with: HTTP 404, a
      failure flag, the message, and null data. */
  function NotFound(message: string): (r: Response<GeneralResponse>)
    ensures r.status.Code() == 404 && !r.body.success
    ensures r.body.message == message && r.body.data.None?
  {
    Response(GeneralResponse(false, message, None), NOT_FOUND)
  }

  /** The envelope the success branch of update and delete answers with: HTTP 202, a
      success flag, the message, and data holding the student under the one key "student". */
  function Accepted(message: string, s: Student): (r: Response<GeneralResponse>)
    ensures r.status.Code() == 202 && r.body.success && r.body.message == message
    ensures r.body.data.Some? && r.body.data.value.Keys == {"student"} && r.body.data.value["student"] == s
  {
    Response(GeneralResponse(true, message, Some(map["student" := s])), ACCEPTED)
  }

  // ---------------------------------------------------------------------------
  // Fetch by id

  /** `getStudent`: OK with the stored student, an empty completion when there is none,
      and the store's error passed on unchanged. */
  function GetStudent(d: Db, id: int, fault: Option<string>): (r: Result<Option<Response<Student>>, StoreError>)
    ensures fault.Some? ==> r == Failure(Injected(fault.value))
    ensures fault.None? ==> r.Success? && (r.value.Some? <==> id in d.students)
    ensures fault.None? && id in d.students ==> r.value.value == Response(d.students[id], OK)
  {
    match FindById(d, id, fault)
    case Failure(e) => Failure(e)
    case Success(found) => Success(if found.Some? then Some(Response(found.value, OK)) else None)
  }

  // ---------------------------------------------------------------------------
  // List

  const MaxInteger: int := 0x7fff_ffff
  const MaxLong: int := 0x7fff_ffff_ffff_ffff

  /** A 32-bit `page` and a 64-bit `limit` whose offset stays within 64 bits. */
  predicate ListBounds(page: int, limit: int) {
    1 <= page <= MaxInteger && 0 <= limit <= MaxLong && (page - 1) * limit <= MaxLong
  }

  /** The arguments the list handler passes to the query. */
  datatype ListQuery = ListQuery(offset: nat, limit: nat, status: Option<string>, name: Option<string>)

  /** `filterParams.getOrDefault(key, null)`. */
  function Param(filterParams: map<string, string>, key: string): (r: Option<string>)
    ensures r.Some? <==> key in filterParams
    ensures r.Some? ==> r.value == filterParams[key]
  {
    if key in filterParams then Some(filterParams[key]) else None
  }

  /** The list handler's parameter transformation: the offset of page `page`, the status
      filter passed through, and the name filter wrapped as a substring pattern. */
  function ListArgs(page: int, limit: int, filterParams: map<string, string>): (q: ListQuery)
    requires ListBounds(page, limit)
    ensures q.offset == (page - 1) * limit && q.limit == limit
    ensures q.status == Param(filterParams, "status")
    ensures "name" in filterParams ==> q.name == Some("%" + filterParams["name"] + "%")
    ensures "name" !in filterParams ==> q.name == None
  {
    var name := Param(filterParams, "name");
    ListQuery((page - 1) * limit, limit, Param(filterParams, "status"),
              if name.Some? then Some("%" + name.value + "%") else None)
  }

  /** `getStudents`: the query run with `ListArgs`, its result returned unchanged. */
  function GetStudents(d: Db, page: int, limit: int, filterParams: map<string, string>,
                       fault: Option<string>): (r: Result<seq<Student>, StoreError>)
    requires ValidDb(d)
    requires ListBounds(page, limit)
    ensures var q := ListArgs(page, limit, filterParams);
            r == FindAllByStatusAndName(d, q.offset, q.limit, q.status, q.name, fault)
    ensures fault.Some? ==> r == Failure(Injected(fault.value))
    ensures fault.None? ==> r.Success? && |r.value| <= limit
    ensures r.Success? ==> forall i :: 0 <= i < |r.value| ==>
              && r.value[i].id.Some? && r.value[i].id.value in d.students
              && d.students[r.value[i].id.value] == r.value[i]
              && Query.Selected(r.value[i], Param(filterParams, "status"), ListArgs(page, limit, filterParams).name)
  {
    var q := ListArgs(page, limit, filterParams);
    var r := FindAllByStatusAndName(d, q.offset, q.limit, q.status, q.name, fault);
    if r.Success? then
      Query.ResultRowsComeFromTable(Table(d), q.offset, q.limit, q.status, q.name);
      assert forall i :: 0 <= i < |r.value| ==> r.value[i] in Table(d);
      r
    else r
  }

  lemma NextPageOffset(page: int, limit: int)
    requires page >= 1 && ListBounds(page + 1, limit)
    ensures ListBounds(page, limit)
    ensures page * limit == (page - 1) * limit + limit
  {
    assert page * limit == (page - 1) * limit + limit;
  }

  lemma PageOfTable(d: Db, page: int, limit: int, filterParams: map<string, string>, offset: nat)
    requires ValidDb(d)
    requires ListBounds(page, limit)
    requires offset == (page - 1) * limit
    ensures GetStudents(d, page, limit, filterParams, None).value
         == Query.FindAllByStatusAndName(Table(d), offset, limit, Param(filterParams, "status"),
                                         ListArgs(page, limit, filterParams).name)
  {
  }

  /** Without filters the list handler returns the table rows from `(page - 1) * limit`
      on, at most `limit` of them. */
  lemma GetStudentsUnfiltered(d: Db, page: int, limit: int, filterParams: map<string, string>)
    requires ValidDb(d)
    requires ListBounds(page, limit)
    requires "status" !in filterParams && "name" !in filterParams
    ensures var t, o := Table(d), (page - 1) * limit;
            GetStudents(d, page, limit, filterParams, None)
              == Success(if o >= |t| then [] else t[o..o + Query.Min(limit, |t| - o)])
  {
    var q := ListArgs(page, limit, filterParams);
    PageOfTable(d, page, limit, filterParams, q.offset);
    Query.UnfilteredIsPlainSlice(Table(d), q.offset, limit);
  }

  /** Searching by a name without wildcards on a page that holds the whole table returns
      exactly the stored students whose name contains it. */
  lemma GetStudentsNameSearch(d: Db, limit: int, filterParams: map<string, string>, x: string)
    requires ValidDb(d)
    requires ListBounds(1, limit) && limit >= |d.order|
    requires "status" !in filterParams && "name" in filterParams && filterParams["name"] == x
    requires NoWildcards(x)
    ensures GetStudents(d, 1, limit, filterParams, None).Success?
    ensures forall s :: s in GetStudents(d, 1, limit, filterParams, None).value
              <==> s in Table(d) && IsSubstring(x, s.name)
  {
    Query.FirstPageCoversAll(Table(d), limit, None, Some("%" + x + "%"));
    Query.NameSearchIsSubstringSearch(Table(d), None, x);
  }

  /** A status parameter that is the decimal form of `k` lists only students with status `k`. */
  lemma GetStudentsStatusFilter(d: Db, page: int, limit: int, filterParams: map<string, string>, k: int)
    requires ValidDb(d)
    requires ListBounds(page, limit)
    requires "status" in filterParams && filterParams["status"] == IntToString(k)
    ensures forall s :: s in GetStudents(d, page, limit, filterParams, None).value ==> s.status == k
  {
    forall s | s in GetStudents(d, page, limit, filterParams, None).value ensures s.status == k {
      IntToStringInjective(s.status, k);
    }
  }

  /** Page `page` followed by page `page + 1` is the run of `2 * limit` selected rows that
      starts where page `page` starts: consecutive pages neither overlap nor leave gaps. */
  lemma ConsecutivePagesTile(d: Db, page: int, limit: int, filterParams: map<string, string>)
    requires ValidDb(d)
    requires page >= 1 && ListBounds(page + 1, limit)
    ensures ListBounds(page, limit)
    ensures var q := ListArgs(page, limit, filterParams);
            GetStudents(d, page, limit, filterParams, None).value
              + GetStudents(d, page + 1, limit, filterParams, None).value
            == Query.FindAllByStatusAndName(Table(d), q.offset, 2 * limit, q.status, q.name)
  {
    NextPageOffset(page, limit);
    var q := ListArgs(page, limit, filterParams);
    PageOfTable(d, page, limit, filterParams, q.offset);
    PageOfTable(d, page + 1, limit, filterParams, q.offset + limit);
    Query.PagesConcatenate(Table(d), q.offset, limit, limit, q.status, q.name);
  }

  // ---------------------------------------------------------------------------
  // Create

  /** `addStudent`: stamp the clock reading and status 1 on the request, save it, answer
      CREATED with what the store returns; a store error is passed on. */
  function AddOutcome(d: Db, req: Student, now: int, fault: Option<string>)
    : (out: (Result<Response<Student>, StoreError>, Db))
    ensures ValidDb(d) ==> ValidDb(out.1)
    ensures fault.Some? ==> out == (Failure(Injected(fault.value)), d)
    ensures out.0.Success? ==> out.0.value.status == CREATED && out.0.value.body.name == req.name
                               && out.0.value.body.registeredOn == now && out.0.value.body.status == 1
  {
    var (saved, d') := Save(d, req.(registeredOn := now, status := 1), fault);
    (match saved
     case Success(s) => Success(Response(s, CREATED))
     case Failure(e) => Failure(e), d')
  }

  /** A request without an id becomes a new row under the next id, appended to the table,
      with the request's name, `registeredOn = now` and `status = 1`, whatever status or
      registration time the request carried. */
  lemma AddStudentCreatesRow(d: Db, req: Student, now: int)
    requires ValidDb(d)
    requires req.id.None?
    ensures var (r, d') := AddOutcome(d, req, now, None);
            var created := Student(Some(d.nextId), req.name, now, 1);
            && r == Success(Response(created, CREATED))
            && d.nextId !in d.students
            && d'.students == d.students[d.nextId := created]
            && d'.courseWork == d.courseWork
            && ValidDb(d')
            && Table(d') == Table(d) + [created]
  {
    var (r, d') := AddOutcome(d, req, now, None);
    var created := Student(Some(d.nextId), req.name, now, 1);
    assert req.(registeredOn := now, status := 1).(id := Some(d.nextId)) == created;
    assert Table(d') == Table(d) + [created];
  }

  /** The handler does not clear an id the request carries: such a request overwrites the
      row with that id (stamped like a new one), or fails when there is no such row. */
  lemma AddStudentWithSuppliedId(d: Db, req: Student, now: int, k: int)
    requires req.id == Some(k)
    ensures var (r, d') := AddOutcome(d, req, now, None);
            var stamped := req.(registeredOn := now, status := 1);
            if k in d.students then
              && r == Success(Response(stamped, CREATED))
              && d' == d.(students := d.students[k := stamped])
            else
              r == Failure(MissingRow(k)) && d' == d
  {
  }

  // ---------------------------------------------------------------------------
  // Update

  /** `updateStudent`: load the row, copy the request's name onto it, save it; a missing
      row and any store error end in the NOT_FOUND envelope with the error's message. */
  function UpdateOutcome(d: Db, id: int, req: Student, findFault: Option<string>,
                         saveFault: Option<string>): (out: (Response<GeneralResponse>, Db))
    ensures ValidDb(d) ==> ValidDb(out.1)
    ensures out.0.body.success <==> out.0.status == ACCEPTED
    ensures !out.0.body.success ==> out.0.status == NOT_FOUND && out.0.body.data.None? && out.1 == d
    ensures out.0.body.success ==> out.0.body.message == UpdatedMessage
                                   && out.0.body.data.Some? && out.0.body.data.value.Keys == {"student"}
                                   && out.0.body.data.value["student"].name == req.name
    ensures findFault.Some? ==> out == (NotFound(findFault.value), d)
    ensures findFault.None? && saveFault.Some? && id in d.students ==> out == (NotFound(saveFault.value), d)
  {
    match FindById(d, id, findFault)
    case Failure(e) => (NotFound(Message(e)), d)
    case Success(None) => (NotFound(NotFoundMessage(id)), d)
    case Success(Some(found)) =>
      var (saved, d') := Save(d, found.(name := req.name), saveFault);
      match saved
      case Failure(e) => (NotFound(Message(e)), d')
      case Success(s) => (Accepted(UpdatedMessage, s), d')
  }

  /** On a stored id the update saves the old row with only its name replaced: id,
      registration time and status are kept, and nothing else in the store changes. */
  lemma UpdateStudentRenames(d: Db, id: int, req: Student)
    requires ValidDb(d)
    requires id in d.students
    ensures var stored := d.students[id];
            var saved := stored.(name := req.name);
            && saved.id == Some(id) && saved.registeredOn == stored.registeredOn && saved.status == stored.status
            && UpdateOutcome(d, id, req, None, None)
               == (Accepted(UpdatedMessage, saved), d.(students := d.students[id := saved]))
  {
  }

  /** On an id with no row nothing is saved and the answer is the not-found envelope. */
  lemma UpdateStudentMissing(d: Db, id: int, req: Student, saveFault: Option<string>)
    requires id !in d.students
    ensures UpdateOutcome(d, id, req, None, saveFault) == (NotFound(NotFoundMessage(id)), d)
  {
  }

  // ---------------------------------------------------------------------------
  // Delete

  /** `deleteStudent`: load the row, delete its coursework, then delete the row, and
      answer with the loaded snapshot; a missing row or a failing step ends in the
      NOT_FOUND envelope, and no step runs after a failing one. */
  function DeleteOutcome(d: Db, id: int, findFault: Option<string>, cascadeFault: Option<string>,
                         deleteFault: Option<string>): (out: (Response<GeneralResponse>, Db))
    ensures ValidDb(d) ==> ValidDb(out.1)
    ensures out.0.body.success <==> out.0.status == ACCEPTED
    ensures !out.0.body.success ==> out.0.status == NOT_FOUND && out.0.body.data.None?
                                    && out.1.students == d.students
    ensures out.0.body.success ==> out.0.body.message == DeletedMessage
                                   && out.0.body.data.Some? && out.0.body.data.value.Keys == {"student"}
    ensures id in d.students && id !in out.1.students ==> forall w :: w in out.1.courseWork ==> w.studentId != id
    ensures findFault.Some? ==> out == (NotFound(findFault.value), d)
  {
    match FindById(d, id, findFault)
    case Failure(e) => (NotFound(Message(e)), d)
    case Success(None) => (NotFound(NotFoundMessage(id)), d)
    case Success(Some(found)) =>
      var (cascaded, d1) := DeleteByStudentId(d, id, cascadeFault);
      if cascaded.Failure? then (NotFound(Message(cascaded.error)), d1)
      else
        var (deleted, d2) := DeleteById(d1, id, deleteFault);
        if deleted.Failure? then (NotFound(Message(deleted.error)), d2)
        else (Accepted(DeletedMessage, found), d2)
  }

  /** A successful delete removes the student and every coursework row that refers to it,
      leaves every other student and coursework row as it was, and answers with the
      snapshot loaded before the delete. */
  lemma DeleteStudentCascades(d: Db, id: int)
    requires ValidDb(d)
    requires id in d.students
    ensures var (r, d') := DeleteOutcome(d, id, None, None, None);
            && r == Accepted(DeletedMessage, d.students[id])
            && id !in d'.students
            && d'.students.Keys == d.students.Keys - {id}
            && (forall k :: k in d'.students ==> d'.students[k] == d.students[k])
            && (forall w :: w in d'.courseWork <==> w in d.courseWork && w.studentId != id)
            && d'.nextId == d.nextId
            && ValidDb(d')
  {
  }

  /** When the coursework deletion fails the student row is not touched, nothing is
      deleted, and the answer is the failure envelope with the store's message. */
  lemma DeleteCascadeFailureKeepsStudent(d: Db, id: int, m: string, deleteFault: Option<string>)
    requires id in d.students
    ensures DeleteOutcome(d, id, None, Some(m), deleteFault) == (NotFound(m), d)
  {
  }

  /** When the student deletion fails after the cascade, the coursework rows of the student
      are gone but the student row is still there. */
  lemma DeletePrimaryFailureKeepsStudent(d: Db, id: int, m: string)
    requires id in d.students
    ensures var (r, d') := DeleteOutcome(d, id, None, None, Some(m));
            && r == NotFound(m)
            && d' == d.(courseWork := WithoutStudent(d.courseWork, id))
            && id in d'.students
  {
  }

  /** On an id with no row nothing is deleted and the answer is the not-found envelope. */
  lemma DeleteStudentMissing(d: Db, id: int, cascadeFault: Option<string>, deleteFault: Option<string>)
    requires id !in d.students
    ensures DeleteOutcome(d, id, None, cascadeFault, deleteFault) == (NotFound(NotFoundMessage(id)), d)
  {
  }

  // ---------------------------------------------------------------------------
  // The controller object

  class StudentsController {
    const db: Database

    constructor(db: Database)
      ensures this.db == db
    {
      this.db := db;
    }

    method AddStudent(req: Student, now: int, saveFault: Option<string>)
      returns (r: Result<Response<Student>, StoreError>)
      requires db.Valid()
      modifies db
      ensures (r, db.State()) == AddOutcome(old(db.State()), req, now, saveFault)
      ensures db.Valid()
    {
      var stamped := req.(registeredOn := now, status := 1);
      var saved := db.Save(stamped, saveFault);
      match saved
      case Success(s) => r := Success(Response(s, CREATED));
      case Failure(e) => r := Failure(e);
    }

    method UpdateStudent(id: int, req: Student, findFault: Option<string>, saveFault: Option<string>)
      returns (r: Response<GeneralResponse>)
      requires db.Valid()
      modifies db
      ensures (r, db.State()) == UpdateOutcome(old(db.State()), id, req, findFault, saveFault)
      ensures db.Valid()
    {
      var found := db.FindById(id, findFault);
      match found
      case Failure(e) => r := NotFound(Message(e));
      case Success(None) => r := NotFound(NotFoundMessage(id));
      case Success(Some(s)) =>
        var renamed := s.(name := req.name);
        var saved := db.Save(renamed, saveFault);
        match saved
        case Failure(e) => r := NotFound(Message(e));
        case Success(t) => r := Accepted(UpdatedMessage, t);
    }

    method DeleteStudent(id: int, findFault: Option<string>, cascadeFault: Option<string>,
                         deleteFault: Option<string>)
      returns (r: Response<GeneralResponse>)
      requires db.Valid()
      modifies db
      ensures (r, db.State()) == DeleteOutcome(old(db.State()), id, findFault, cascadeFault, deleteFault)
      ensures db.Valid()
    {
      var found := db.FindById(id, findFault);
      match found
      case Failure(e) => r := NotFound(Message(e));
      case Success(None) => r := NotFound(NotFoundMessage(id));
      case Success(Some(s)) =>
        var cascaded := db.DeleteByStudentId(id, cascadeFault);
        if cascaded.Failure? {
          r := NotFound(Message(cascaded.error));
          return;
        }
        var deleted := db.DeleteById(id, deleteFault);
        if deleted.Failure? {
          r := NotFound(Message(deleted.error));
          return;
        }
        r := Accepted(DeletedMessage, s);
    }
  }
}
