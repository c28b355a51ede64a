/** The store as the handlers see it: one object whose tables the repository calls
    change in place. Each method is specified by the matching function of `Store`. */
module Repositories {
  import opened Wrappers
  import opened Model
  import opened Store

  class Database {
    var students: map<int, Student>
    var order: seq<int>
    var nextId: int
    var courseWork: seq<CourseWork>

    /** The tables as a value. */
    function State(): Db
      reads this
    {
      Db(students, order, nextId, courseWork)
    }

    ghost predicate Valid()
      reads this
    {
      ValidDb(State())
    }

    /** A store holding `initial`, the tables as they stand when the service starts. */
    constructor(initial: Db)
      requires ValidDb(initial)
      ensures Valid() && State() == initial
    {
      students := initial.students;
      order := initial.order;
      nextId := initial.nextId;
      courseWork := initial.courseWork;
    }

    method FindById(id: int, fault: Option<string>) returns (r: Result<Option<Student>, StoreError>)
      ensures r == Store.FindById(State(), id, fault)
    {
      if fault.Some? {
        return Failure(Injected(fault.value));
      }
      if id in students {
        r := Success(Some(students[id]));
      } else {
        r := Success(None);
      }
    }

    method Save(s: Student, fault: Option<string>) returns (r: Result<Student, StoreError>)
      modifies this
      ensures (r, State()) == Store.Save(old(State()), s, fault)
      ensures old(Valid()) ==> Valid()
    {
      if fault.Some? {
        return Failure(Injected(fault.value));
      }
      match s.id
      case None =>
        var saved := s.(id := Some(nextId));
        students := students[nextId := saved];
        order := order + [nextId];
        nextId := nextId + 1;
        r := Success(saved);
      case Some(k) =>
        if k in students {
          students := students[k := s];
          r := Success(s);
        } else {
          r := Failure(MissingRow(k));
        }
    }

    method DeleteById(id: int, fault: Option<string>) returns (r: Result<(), StoreError>)
      modifies this
      ensures (r, State()) == Store.DeleteById(old(State()), id, fault)
    {
      if fault.Some? {
        return Failure(Injected(fault.value));
      }
      students := students - {id};
      order := Without(order, id);
      r := Success(());
    }

    method DeleteByStudentId(studentId: int, fault: Option<string>) returns (r: Result<(), StoreError>)
      modifies this
      ensures (r, State()) == Store.DeleteByStudentId(old(State()), studentId, fault)
      ensures old(Valid()) ==> Valid()
    {
      if fault.Some? {
        return Failure(Injected(fault.value));
      }
      courseWork := WithoutStudent(courseWork, studentId);
      r := Success(());
    }
  }
}
