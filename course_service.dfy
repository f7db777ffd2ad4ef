/** CourseService: lookups, create, update and delete of courses, and the two
    traversals from a course to its students and its teachers. */
module CourseService {
  import opened Wrappers
  import opened Errors
  import opened Entities
  import opened Store
  import opened Lists

  /** findById: the course's DTO, or CourseNotFound for an unknown id. */
  function FindById(st: Store, id: CourseId): (r: Result<CourseDto, Error>)
    ensures r.Err? <==> id !in st.courses
    ensures r.Err? ==> r.error == NotFound(CourseKind, id)
    ensures r.Ok? ==> r.value.id == id && r.value.courseName == st.courses[id].courseName
  {
    if id in st.courses then Ok(CourseToDto(id, st.courses[id]))
    else Err(NotFound(CourseKind, id))
  }

  /** findAll: one DTO per stored course, in ascending id order; never fails. */
  function FindAll(st: Store): (r: seq<CourseDto>)
    ensures |r| == |st.courses.Keys|
    ensures forall i :: 0 <= i < |r| ==>
      r[i].id in st.courses && r[i] == CourseToDto(r[i].id, st.courses[r[i].id])
    ensures forall i, j :: 0 <= i < j < |r| ==> r[i].id < r[j].id
  {
    var ids := Ascending(st.courses.Keys);
    seq(|ids|, i requires 0 <= i < |ids| => CourseToDto(ids[i], st.courses[ids[i]]))
  }

  /** findAll lists every stored course. */
  lemma FindAllListsEveryCourse(st: Store, id: CourseId)
    requires id in st.courses
    ensures exists i :: 0 <= i < |FindAll(st)| && FindAll(st)[i].id == id
  {
    var ids := Ascending(st.courses.Keys);
    var i := IndexOf(ids, id);
    assert FindAll(st)[i].id == id;
  }

  /** save: the input stored under a fresh id with no teachers and no students;
      the returned DTO is the input with that id. */
  function Save(st: Store, d: CourseDto): (o: Outcome<CourseDto>)
    ensures o.result == Ok(d.(id := st.nextCourseId))
    ensures FindById(o.store, st.nextCourseId) == o.result
    ensures o.store.courses[st.nextCourseId].teachers == [] && o.store.courses[st.nextCourseId].students == []
    ensures o.store.courses.Keys == st.courses.Keys + {st.nextCourseId}
    ensures st.Valid() ==> st.nextCourseId !in st.courses && o.store.Valid()
    ensures st.Valid() ==> forall id :: id in st.courses ==> o.store.courses[id] == st.courses[id]
    ensures o.store.teachers == st.teachers && o.store.students == st.students
    ensures o.store.nextCourseId == st.nextCourseId + 1 && o.store.nextTeacherId == st.nextTeacherId && o.store.nextStudentId == st.nextStudentId
  {
    var id := st.nextCourseId;
    Outcome(st.(courses := st.courses[id := CourseFromDto(d)], nextCourseId := id + 1),
            Ok(CourseToDto(id, CourseFromDto(d))))
  }

  /** update: CourseNotFound for an unknown id; otherwise only the course's
      name is rewritten, its id, teachers and students are kept. */
  function Update(st: Store, id: CourseId, d: CourseDto): (o: Outcome<CourseDto>)
    ensures id !in st.courses ==> o == Outcome(st, Err(NotFound(CourseKind, id)))
    ensures id in st.courses ==>
      && o.result == Ok(CourseDto(id, d.courseName))
      && o.store == st.(courses := st.courses[id := UpdateCourseFields(d, st.courses[id])])
  {
    if id !in st.courses then Outcome(st, Err(NotFound(CourseKind, id)))
    else
      var c := UpdateCourseFields(d, st.courses[id]);
      Outcome(st.(courses := st.courses[id := c]), Ok(CourseToDto(id, c)))
  }

  /** deleteById: CourseNotFound for an unknown id; otherwise that row alone is
      removed. No teacher or student record is edited. */
  function DeleteById(st: Store, id: CourseId): (o: Outcome<()>)
    ensures id !in st.courses ==> o == Outcome(st, Err(NotFound(CourseKind, id)))
    ensures id in st.courses ==> o.result == Ok(())
    ensures FindById(o.store, id) == Err(NotFound(CourseKind, id))
    ensures o.store == st.(courses := st.courses - {id})
    ensures st.Valid() ==> o.store.Valid()
  {
    if id !in st.courses then Outcome(st, Err(NotFound(CourseKind, id)))
    else Outcome(st.(courses := st.courses - {id}), Ok(()))
  }

  /** findStudentsByCourse: the course's student list, in order, or CourseNotFound. */
  function FindStudentsByCourse(st: Store, id: CourseId): (r: Result<seq<StudentId>, Error>)
    ensures id !in st.courses ==> r == Err(NotFound(CourseKind, id))
    ensures id in st.courses ==> r.Ok? && r.value == st.courses[id].students
  {
    if id in st.courses then Ok(st.courses[id].students) else Err(NotFound(CourseKind, id))
  }

  /** findTeachersByCourse: the course's teacher list, in order, or CourseNotFound. */
  function FindTeachersByCourse(st: Store, id: CourseId): (r: Result<seq<TeacherId>, Error>)
    ensures id !in st.courses ==> r == Err(NotFound(CourseKind, id))
    ensures id in st.courses ==> r.Ok? && r.value == st.courses[id].teachers
  {
    if id in st.courses then Ok(st.courses[id].teachers) else Err(NotFound(CourseKind, id))
  }

  /** Deleting a course edits no teacher: in this model, which leaves out the
      database's foreign-key checks, a teacher who taught it still refers to
      it, so the course/teacher invariant no longer holds. */
  lemma DeleteDoesNotDetachTeachers(st: Store, id: CourseId, tid: TeacherId)
    requires StaffingConsistent(st)
    requires id in st.courses && tid in st.courses[id].teachers
    ensures var after := DeleteById(st, id).store;
      tid in after.teachers && after.teachers[tid].course == Some(id) && id !in after.courses
    ensures !StaffingConsistent(DeleteById(st, id).store)
  {
    var after := DeleteById(st, id).store;
    assert st.teachers[tid].course == Some(id);
    assert after.teachers[tid].course.value !in after.courses;
  }

  /** Nor does it edit any student: an enrolled student's course list still
      holds the deleted id. */
  lemma DeleteDoesNotDetachStudents(st: Store, id: CourseId, sid: StudentId)
    requires EnrolmentConsistent(st)
    requires id in st.courses && sid in st.courses[id].students
    ensures var after := DeleteById(st, id).store;
      sid in after.students && id in after.students[sid].courses && id !in after.courses
    ensures !EnrolmentConsistent(DeleteById(st, id).store)
  {
    var after := DeleteById(st, id).store;
    assert sid in st.students && id in st.students[sid].courses;
  }
  /** Saving a course keeps every invariant when the store is valid: the
      fresh id is listed nowhere. */
  lemma SaveKeepsConsistency(st: Store, d: CourseDto)
    requires st.Valid() && Consistent(st)
    ensures Consistent(Save(st, d).store)
  {
    var st' := Save(st, d).store;
    var id := st.nextCourseId;
    assert forall sid :: sid in st.students ==> id !in st.students[sid].courses;
    assert forall tid :: tid in st.teachers && st.teachers[tid].course.Some? ==> st.teachers[tid].course != Some(id);
    assert EnrolmentConsistent(st');
    assert StaffingConsistent(st');
  }

  /** An update edits no relationship, so it keeps every invariant, and a
      lookup afterwards returns what the update returned. */
  lemma UpdateKeepsConsistency(st: Store, id: CourseId, d: CourseDto)
    requires Consistent(st)
    ensures Consistent(Update(st, id, d).store)
    ensures FindById(Update(st, id, d).store, id) ==
      if id in st.courses then Update(st, id, d).result else Err(NotFound(CourseKind, id))
  {
    var st' := Update(st, id, d).store;
    if id in st.courses {
      assert forall cid :: cid in st'.courses ==>
        st'.courses[cid].teachers == st.courses[cid].teachers &&
        st'.courses[cid].students == st.courses[cid].students;
      assert EnrolmentConsistent(st');
      assert StaffingConsistent(st');
    }
  }
}
