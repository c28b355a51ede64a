/** The abstract datastore behind the two repositories, as a value: the `students`
    table keyed by id, the insertion order of its rows, the id counter `save` draws
    from, and the `coursework` table. Each repository operation the handlers use is a
    function from the old state and an injected fault (`Some(message)` when the
    store fails) to the result and the new state. */
module Store {
  import opened Wrappers
  import opened Model
  import opened Text
  import Query

  /** Why a store call failed. `Injected` is a failure of the store itself (connection,
      constraint, timeout); `MissingRow` is `save` of an entity whose id has no row. */
  datatype StoreError = Injected(message: string) | MissingRow(id: int)

  /** The exception message an error carries. The wording of `MissingRow` stands for the
      store's own text. */
  function Message(e: StoreError): (m: string)
    ensures e.Injected? ==> m == e.message
    ensures e.MissingRow? ==> |m| > 0
  {
    match e
    case Injected(m) => m
    case MissingRow(k) => "Row with Id " + IntToString(k) + " does not exist"
  }

  datatype Db = Db(students: map<int, Student>, order: seq<int>, nextId: int,
                   courseWork: seq<CourseWork>)

  predicate Increasing(s: seq<int>) {
    forall i, j :: 0 <= i < j < |s| ==> s[i] < s[j]
  }

  /** The store invariant: the insertion order lists every stored id once, ids were
      handed out in increasing order below the counter, each row carries its own key,
      and every coursework row refers to a stored student. */
  predicate ValidDb(d: Db) {
    && d.nextId >= 1
    && Increasing(d.order)
    && (forall i :: 0 <= i < |d.order| ==> d.order[i] in d.students && d.order[i] < d.nextId)
    && (forall k :: k in d.students ==> k in d.order && d.students[k].id == Some(k))
    && (forall r :: r in d.courseWork ==> r.studentId in d.students)
  }

  /** The `students` table in insertion order: exactly the stored rows, one per id. */
  function Table(d: Db): (t: seq<Student>)
    requires ValidDb(d)
    ensures |t| == |d.order|
    ensures forall i :: 0 <= i < |t| ==> t[i] == d.students[d.order[i]]
    ensures forall k :: k in d.students ==> d.students[k] in t
    ensures forall s :: s in t ==> s.id.Some? && s.id.value in d.students && d.students[s.id.value] == s
  {
    var t := seq(|d.order|, i requires 0 <= i < |d.order| => d.students[d.order[i]]);
    StoredRowsInTable(d, t);
    t
  }

  lemma StoredRowsInTable(d: Db, t: seq<Student>)
    requires ValidDb(d)
    requires |t| == |d.order| && forall i :: 0 <= i < |t| ==> t[i] == d.students[d.order[i]]
    ensures forall k :: k in d.students ==> d.students[k] in t
  {
    forall k | k in d.students ensures d.students[k] in t {
      var i :| 0 <= i < |d.order| && d.order[i] == k;
      assert t[i] == d.students[k];
    }
  }

  /** `findById`: zero or one student. */
  function FindById(d: Db, id: int, fault: Option<string>): (r: Result<Option<Student>, StoreError>)
    ensures r.Success? <==> fault.None?
    ensures r.Success? ==> (r.value.Some? <==> id in d.students)
    ensures r.Success? && r.value.Some? ==> r.value.value == d.students[id]
  {
    if fault.Some? then Failure(Injected(fault.value))
    else if id in d.students then Success(Some(d.students[id]))
    else Success(None)
  }

  /** `save`: an entity without an id is inserted under the next id and appended to the
      table; one with an id replaces the row with that id, or fails when there is none. */
  function Save(d: Db, s: Student, fault: Option<string>): (out: (Result<Student, StoreError>, Db))
    ensures ValidDb(d) ==> ValidDb(out.1)
    ensures fault.Some? ==> out == (Failure(Injected(fault.value)), d)
    ensures out.1.courseWork == d.courseWork
    ensures fault.None? && s.id.None? ==>
              && out.0 == Success(s.(id := Some(d.nextId)))
              && out.1.nextId == d.nextId + 1
    ensures ValidDb(d) && fault.None? && s.id.None? ==>
              && d.nextId !in d.students
              && Table(out.1) == Table(d) + [s.(id := Some(d.nextId))]
    ensures fault.None? && s.id.Some? && s.id.value in d.students ==>
              && out.0 == Success(s)
              && out.1.students == d.students[s.id.value := s]
              && out.1.order == d.order && out.1.nextId == d.nextId
    ensures fault.None? && s.id.Some? && s.id.value !in d.students ==>
              out == (Failure(MissingRow(s.id.value)), d)
  {
    if fault.Some? then (Failure(Injected(fault.value)), d)
    else match s.id
      case None =>
        var saved := s.(id := Some(d.nextId));
        (Success(saved), d.(students := d.students[d.nextId := saved], order := d.order + [d.nextId],
                            nextId := d.nextId + 1))
      case Some(k) =>
        if k in d.students then (Success(s), d.(students := d.students[k := s]))
        else (Failure(MissingRow(k)), d)
  }

  /** `s` without `x`, order kept. */
  function Without(s: seq<int>, x: int): (r: seq<int>)
    ensures forall y :: y in r <==> y in s && y != x
    ensures Increasing(s) ==> Increasing(r)
  {
    if s == [] then []
    else if s[0] == x then Without(s[1..], x)
    else
      var rest := Without(s[1..], x);
      assert Increasing(s) ==> forall k :: 0 <= k < |rest| ==> s[0] < rest[k] by {
        if Increasing(s) {
          forall k | 0 <= k < |rest| ensures s[0] < rest[k] {
            assert rest[k] in rest;
            var j :| 1 <= j < |s| && s[j] == rest[k];
          }
        }
      }
      [s[0]] + rest
  }

  /** The rows of `rows` whose student is not `studentId`, order kept. */
  function WithoutStudent(rows: seq<CourseWork>, studentId: int): (r: seq<CourseWork>)
    ensures forall w :: w in r <==> w in rows && w.studentId != studentId
  {
    if rows == [] then []
    else if rows[0].studentId == studentId then WithoutStudent(rows[1..], studentId)
    else [rows[0]] + WithoutStudent(rows[1..], studentId)
  }

  /** `deleteById`: the row with that id is gone; deleting an absent id succeeds. */
  function DeleteById(d: Db, id: int, fault: Option<string>): (out: (Result<(), StoreError>, Db))
    ensures ValidDb(d) && (forall r :: r in d.courseWork ==> r.studentId != id) ==> ValidDb(out.1)
    ensures fault.Some? ==> out == (Failure(Injected(fault.value)), d)
    ensures fault.None? ==>
              && out.0 == Success(())
              && out.1.students == d.students - {id}
              && (forall k :: k in out.1.order <==> k in d.order && k != id)
              && out.1.nextId == d.nextId
              && out.1.courseWork == d.courseWork
  {
    if fault.Some? then (Failure(Injected(fault.value)), d)
    else
      var order := Without(d.order, id);
      assert forall i :: 0 <= i < |order| ==> order[i] in d.order && order[i] != id by {
        forall i | 0 <= i < |order| ensures order[i] in d.order && order[i] != id {
          assert order[i] in order;
        }
      }
      assert ValidDb(d) ==> forall i :: 0 <= i < |order| ==> order[i] in d.students && order[i] < d.nextId by {
        if ValidDb(d) {
          forall i | 0 <= i < |order| ensures order[i] in d.students && order[i] < d.nextId {
            var j :| 0 <= j < |d.order| && d.order[j] == order[i];
          }
        }
      }
      (Success(()), d.(students := d.students - {id}, order := order))
  }

  /** Why the handler deletes the coursework first: removing a student that coursework
      still refers to leaves a dangling reference. */
  lemma DeleteReferencedStudentBreaksInvariant()
    ensures var d := Db(map[1 := Student(Some(1), "a", 0, 1)], [1], 2, [CourseWork(7, 1)]);
            ValidDb(d) && !ValidDb(DeleteById(d, 1, None).1)
  {
    var d := Db(map[1 := Student(Some(1), "a", 0, 1)], [1], 2, [CourseWork(7, 1)]);
    var d' := DeleteById(d, 1, None).1;
    assert CourseWork(7, 1) in d'.courseWork && 1 !in d'.students;
  }

  /** `deleteByStudentID` of the coursework repository. */
  function DeleteByStudentId(d: Db, studentId: int, fault: Option<string>): (out: (Result<(), StoreError>, Db))
    ensures ValidDb(d) ==> ValidDb(out.1)
    ensures fault.Some? ==> out == (Failure(Injected(fault.value)), d)
    ensures fault.None? ==>
              && out.0 == Success(())
              && out.1.students == d.students && out.1.order == d.order && out.1.nextId == d.nextId
              && (forall w :: w in out.1.courseWork <==> w in d.courseWork && w.studentId != studentId)
  {
    if fault.Some? then (Failure(Injected(fault.value)), d)
    else (Success(()), d.(courseWork := WithoutStudent(d.courseWork, studentId)))
  }

  /** `findAllByStatusAndName` over the table in insertion order. */
  function FindAllByStatusAndName(d: Db, offset: nat, limit: nat, status: Option<string>,
                                  name: Option<string>, fault: Option<string>): (r: Result<seq<Student>, StoreError>)
    requires ValidDb(d)
    ensures r.Success? <==> fault.None?
    ensures r.Success? ==> |r.value| <= limit
    ensures r.Success? ==> r.value == Query.FindAllByStatusAndName(Table(d), offset, limit, status, name)
    ensures r.Success? ==> forall s :: s in r.value ==>
              s.id.Some? && s.id.value in d.students && d.students[s.id.value] == s
  {
    if fault.Some? then Failure(Injected(fault.value))
    else
      Query.ResultRowsComeFromTable(Table(d), offset, limit, status, name);
      Success(Query.FindAllByStatusAndName(Table(d), offset, limit, status, name))
  }
}
