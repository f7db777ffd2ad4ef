/** StudentService: lookups, create, update and delete of students, the
    traversals from a student to its courses and its teachers, and the four
    operations that enrol a student in a course or attach a teacher to it and
    undo that. */
module StudentService {
  import opened Wrappers
  import opened Errors
  import opened Entities
  import opened Store
  import opened Lists
  import CourseService
  import TeacherService

  /** findById: the student's DTO, or StudentNotFound for an unknown id. */
  function FindById(st: Store, id: StudentId): (r: Result<StudentDto, Error>)
    ensures r.Err? <==> id !in st.students
    ensures r.Err? ==> r.error == NotFound(StudentKind, id)
    ensures r.Ok? ==> r.value.id == id && StudentFromDto(r.value) == st.students[id].(courses := [], teachers := [])
  {
    if id in st.students then Ok(StudentToDto(id, st.students[id]))
    else Err(NotFound(StudentKind, id))
  }

  /** findAll: one DTO per stored student, in ascending id order; never fails. */
  function FindAll(st: Store): (r: seq<StudentDto>)
    ensures |r| == |st.students.Keys|
    ensures forall i :: 0 <= i < |r| ==>
      r[i].id in st.students && r[i] == StudentToDto(r[i].id, st.students[r[i].id])
    ensures forall i, j :: 0 <= i < j < |r| ==> r[i].id < r[j].id
  {
    var ids := Ascending(st.students.Keys);
    seq(|ids|, i requires 0 <= i < |ids| => StudentToDto(ids[i], st.students[ids[i]]))
  }

  /** findAll lists every stored student. */
  lemma FindAllListsEveryStudent(st: Store, id: StudentId)
    requires id in st.students
    ensures exists i :: 0 <= i < |FindAll(st)| && FindAll(st)[i].id == id
  {
    var ids := Ascending(st.students.Keys);
    var i := IndexOf(ids, id);
    assert FindAll(st)[i].id == id;
  }

  /** save: the input stored under a fresh id with no courses and no teachers;
      the returned DTO is the input with that id. */
  function Save(st: Store, d: StudentDto): (o: Outcome<StudentDto>)
    ensures o.result == Ok(d.(id := st.nextStudentId))
    ensures FindById(o.store, st.nextStudentId) == o.result
    ensures o.store.students[st.nextStudentId].courses == [] && o.store.students[st.nextStudentId].teachers == []
    ensures o.store.students.Keys == st.students.Keys + {st.nextStudentId}
    ensures st.Valid() ==> st.nextStudentId !in st.students && o.store.Valid()
    ensures st.Valid() ==> forall id :: id in st.students ==> o.store.students[id] == st.students[id]
    ensures o.store.courses == st.courses && o.store.teachers == st.teachers
    ensures o.store.nextCourseId == st.nextCourseId && o.store.nextTeacherId == st.nextTeacherId && o.store.nextStudentId == st.nextStudentId + 1
  {
    var id := st.nextStudentId;
    Outcome(st.(students := st.students[id := StudentFromDto(d)], nextStudentId := id + 1),
            Ok(StudentToDto(id, StudentFromDto(d))))
  }

  /** update: StudentNotFound for an unknown id; otherwise the three names and
      the age are rewritten and the courses and teachers are kept. */
  function Update(st: Store, id: StudentId, d: StudentDto): (o: Outcome<StudentDto>)
    ensures id !in st.students ==> o == Outcome(st, Err(NotFound(StudentKind, id)))
    ensures id in st.students ==>
      && o.result == Ok(d.(id := id))
      && o.store == st.(students := st.students[id := UpdateStudentFields(d, st.students[id])])
  {
    if id !in st.students then Outcome(st, Err(NotFound(StudentKind, id)))
    else
      var s := UpdateStudentFields(d, st.students[id]);
      Outcome(st.(students := st.students[id := s]), Ok(StudentToDto(id, s)))
  }

  /** deleteById: StudentNotFound for an unknown id; otherwise that row alone is removed. */
  function DeleteById(st: Store, id: StudentId): (o: Outcome<()>)
    ensures id !in st.students ==> o == Outcome(st, Err(NotFound(StudentKind, id)))
    ensures id in st.students ==> o.result == Ok(())
    ensures FindById(o.store, id) == Err(NotFound(StudentKind, id))
    ensures o.store == st.(students := st.students - {id})
    ensures st.Valid() ==> o.store.Valid()
  {
    if id !in st.students then Outcome(st, Err(NotFound(StudentKind, id)))
    else Outcome(st.(students := st.students - {id}), Ok(()))
  }

  /** findCoursesByStudentId: the student's course list, in order, or StudentNotFound. */
  function FindCoursesByStudentId(st: Store, id: StudentId): (r: Result<seq<CourseId>, Error>)
    ensures id !in st.students ==> r == Err(NotFound(StudentKind, id))
    ensures id in st.students ==> r.Ok? && r.value == st.students[id].courses
  {
    if id in st.students then Ok(st.students[id].courses) else Err(NotFound(StudentKind, id))
  }

  /** findTeachersByStudentId: the student's teacher list, in order, or StudentNotFound. */
  function FindTeachersByStudentId(st: Store, id: StudentId): (r: Result<seq<TeacherId>, Error>)
    ensures id !in st.students ==> r == Err(NotFound(StudentKind, id))
    ensures id in st.students ==> r.Ok? && r.value == st.students[id].teachers
  {
    if id in st.students then Ok(st.students[id].teachers) else Err(NotFound(StudentKind, id))
  }

  /** assignCourseToStudent: the course is looked up before the student. A
      student already enrolled gets false and nothing changes; otherwise the
      course is appended to the student's courses and the student to the
      course's students. */
  function AssignCourseToStudent(st: Store, courseId: CourseId, studentId: StudentId): (o: Outcome<bool>)
    ensures courseId !in st.courses ==> o == Outcome(st, Err(NotFound(CourseKind, courseId)))
    ensures courseId in st.courses && studentId !in st.students ==>
      o == Outcome(st, Err(NotFound(StudentKind, studentId)))
    ensures courseId in st.courses && studentId in st.students ==>
      o.result == Ok(courseId !in st.students[studentId].courses)
    ensures o.result != Ok(true) ==> o.store == st
    ensures o.result == Ok(true) ==>
      && o.store == st.(
            students := st.students[studentId := st.students[studentId].(courses := st.students[studentId].courses + [courseId])],
            courses := st.courses[courseId := st.courses[courseId].(students := st.courses[courseId].students + [studentId])])
      && (st.Valid() ==> o.store.Valid())
  {
    if courseId !in st.courses then Outcome(st, Err(NotFound(CourseKind, courseId)))
    else if studentId !in st.students then Outcome(st, Err(NotFound(StudentKind, studentId)))
    else
      var course := st.courses[courseId];
      var student := st.students[studentId];
      if courseId in student.courses then Outcome(st, Ok(false))
      else
        Outcome(st.(students := st.students[studentId := student.(courses := student.courses + [courseId])],
                    courses := st.courses[courseId := course.(students := course.students + [studentId])]),
                Ok(true))
  }

  /** assignTeacherToStudent: the student is looked up before the teacher. A
      teacher already attached gets false and nothing changes; otherwise the
      teacher is appended to the student's teachers and the student to the
      teacher's students. */
  function AssignTeacherToStudent(st: Store, teacherId: TeacherId, studentId: StudentId): (o: Outcome<bool>)
    ensures studentId !in st.students ==> o == Outcome(st, Err(NotFound(StudentKind, studentId)))
    ensures studentId in st.students && teacherId !in st.teachers ==>
      o == Outcome(st, Err(NotFound(TeacherKind, teacherId)))
    ensures studentId in st.students && teacherId in st.teachers ==>
      o.result == Ok(teacherId !in st.students[studentId].teachers)
    ensures o.result != Ok(true) ==> o.store == st
    ensures o.result == Ok(true) ==>
      && o.store == st.(
            students := st.students[studentId := st.students[studentId].(teachers := st.students[studentId].teachers + [teacherId])],
            teachers := st.teachers[teacherId := st.teachers[teacherId].(students := st.teachers[teacherId].students + [studentId])])
      && (st.Valid() ==> o.store.Valid())
  {
    if studentId !in st.students then Outcome(st, Err(NotFound(StudentKind, studentId)))
    else if teacherId !in st.teachers then Outcome(st, Err(NotFound(TeacherKind, teacherId)))
    else
      var student := st.students[studentId];
      var teacher := st.teachers[teacherId];
      if teacherId in student.teachers then Outcome(st, Ok(false))
      else
        Outcome(st.(students := st.students[studentId := student.(teachers := student.teachers + [teacherId])],
                    teachers := st.teachers[teacherId := teacher.(students := teacher.students + [studentId])]),
                Ok(true))
  }

  /** removeTeacherFromStudent: the student is looked up before the teacher. A
      teacher not attached gets false and nothing changes; otherwise its first
      occurrence is removed from the student's teachers. The teacher's own
      student list is not touched. */
  function RemoveTeacherFromStudent(st: Store, teacherId: TeacherId, studentId: StudentId): (o: Outcome<bool>)
    ensures studentId !in st.students ==> o == Outcome(st, Err(NotFound(StudentKind, studentId)))
    ensures studentId in st.students && teacherId !in st.teachers ==>
      o == Outcome(st, Err(NotFound(TeacherKind, teacherId)))
    ensures studentId in st.students && teacherId in st.teachers ==>
      o.result == Ok(teacherId in st.students[studentId].teachers)
    ensures o.result != Ok(true) ==> o.store == st
    ensures o.result == Ok(true) ==>
      && o.store == st.(
            students := st.students[studentId := st.students[studentId].(teachers := RemoveFirst(st.students[studentId].teachers, teacherId))])
      && (st.Valid() ==> o.store.Valid())
  {
    if studentId !in st.students then Outcome(st, Err(NotFound(StudentKind, studentId)))
    else if teacherId !in st.teachers then Outcome(st, Err(NotFound(TeacherKind, teacherId)))
    else
      var student := st.students[studentId];
      if teacherId !in student.teachers then Outcome(st, Ok(false))
      else
        Outcome(st.(students := st.students[studentId := student.(teachers := RemoveFirst(student.teachers, teacherId))]),
                Ok(true))
  }

  /** removeCourseFromStudent: the course is looked up before the student. A
      student not enrolled gets false and nothing changes; otherwise the first
      occurrence of the course is removed from the student's courses. The
      course's own student list is not touched. */
  function RemoveCourseFromStudent(st: Store, courseId: CourseId, studentId: StudentId): (o: Outcome<bool>)
    ensures courseId !in st.courses ==> o == Outcome(st, Err(NotFound(CourseKind, courseId)))
    ensures courseId in st.courses && studentId !in st.students ==>
      o == Outcome(st, Err(NotFound(StudentKind, studentId)))
    ensures courseId in st.courses && studentId in st.students ==>
      o.result == Ok(courseId in st.students[studentId].courses)
    ensures o.result != Ok(true) ==> o.store == st
    ensures o.result == Ok(true) ==>
      && o.store == st.(
            students := st.students[studentId := st.students[studentId].(courses := RemoveFirst(st.students[studentId].courses, courseId))])
      && (st.Valid() ==> o.store.Valid())
  {
    if courseId !in st.courses then Outcome(st, Err(NotFound(CourseKind, courseId)))
    else if studentId !in st.students then Outcome(st, Err(NotFound(StudentKind, studentId)))
    else
      var student := st.students[studentId];
      if courseId !in student.courses then Outcome(st, Ok(false))
      else
        Outcome(st.(students := st.students[studentId := student.(courses := RemoveFirst(student.courses, courseId))]),
                Ok(true))
  }

  /** An enrolment keeps every invariant of the relationship model. */
  lemma AssignCourseToStudentKeepsConsistency(st: Store, courseId: CourseId, studentId: StudentId)
    requires Consistent(st)
    ensures Consistent(AssignCourseToStudent(st, courseId, studentId).store)
  {
    var o := AssignCourseToStudent(st, courseId, studentId);
    if o.result == Ok(true) {
      var st' := o.store;
      assert studentId !in st.courses[courseId].students;
      AppendFresh(st.students[studentId].courses, courseId);
      AppendFresh(st.courses[courseId].students, studentId);
      forall sid, cid
        ensures (sid in st'.students && cid in st'.students[sid].courses) <==>
                (cid in st'.courses && sid in st'.courses[cid].students)
      {
        if sid != studentId || cid != courseId {
          assert sid in st'.students && cid in st'.students[sid].courses <==>
                 sid in st.students && cid in st.students[sid].courses;
          assert cid in st'.courses && sid in st'.courses[cid].students <==>
                 cid in st.courses && sid in st.courses[cid].students;
        }
      }
      forall cid, tid | cid in st'.courses && tid in st'.courses[cid].teachers
        ensures tid in st'.teachers && st'.teachers[tid].course == Some(cid)
      {
        assert tid in st.courses[cid].teachers;
      }
      assert TutoringConsistent(st');
    }
  }

  /** Attaching a teacher keeps every invariant of the relationship model. */
  lemma AssignTeacherToStudentKeepsConsistency(st: Store, teacherId: TeacherId, studentId: StudentId)
    requires Consistent(st)
    ensures Consistent(AssignTeacherToStudent(st, teacherId, studentId).store)
  {
    var o := AssignTeacherToStudent(st, teacherId, studentId);
    if o.result == Ok(true) {
      var st' := o.store;
      assert studentId !in st.teachers[teacherId].students;
      AppendFresh(st.students[studentId].teachers, teacherId);
      AppendFresh(st.teachers[teacherId].students, studentId);
      forall sid, tid
        ensures (sid in st'.students && tid in st'.students[sid].teachers) <==>
                (tid in st'.teachers && sid in st'.teachers[tid].students)
      {
        if sid != studentId || tid != teacherId {
          assert sid in st'.students && tid in st'.students[sid].teachers <==>
                 sid in st.students && tid in st.students[sid].teachers;
          assert tid in st'.teachers && sid in st'.teachers[tid].students <==>
                 tid in st.teachers && sid in st.teachers[tid].students;
        }
      }
      forall tid | tid in st'.teachers && st'.teachers[tid].course.Some?
        ensures st'.teachers[tid].course.value in st'.courses
        ensures tid in st'.courses[st'.teachers[tid].course.value].teachers
      {
        assert st'.teachers[tid].course == st.teachers[tid].course;
      }
      assert EnrolmentConsistent(st');
    }
  }

  /** Withdrawing an enrolled student edits one side only: the student no
      longer lists the course, the course's student list carried by this model
      still holds the student, and the student/course invariant no longer
      holds. */
  lemma RemoveCourseFromStudentBreaksEnrolment(st: Store, courseId: CourseId, studentId: StudentId)
    requires EnrolmentConsistent(st) && DuplicateFree(st)
    requires studentId in st.students && courseId in st.students[studentId].courses
    ensures RemoveCourseFromStudent(st, courseId, studentId).result == Ok(true)
    ensures var st' := RemoveCourseFromStudent(st, courseId, studentId).store;
      courseId !in st'.students[studentId].courses && studentId in st'.courses[courseId].students
    ensures !EnrolmentConsistent(RemoveCourseFromStudent(st, courseId, studentId).store)
  {
    assert courseId in st.courses && studentId in st.courses[courseId].students;
    RemoveFirstFromDistinct(st.students[studentId].courses, courseId);
  }

  /** Detaching a teacher edits one side only, in the same way: the teacher's
      student list carried by this model still holds the student. */
  lemma RemoveTeacherFromStudentBreaksTutoring(st: Store, teacherId: TeacherId, studentId: StudentId)
    requires TutoringConsistent(st) && DuplicateFree(st)
    requires studentId in st.students && teacherId in st.students[studentId].teachers
    ensures RemoveTeacherFromStudent(st, teacherId, studentId).result == Ok(true)
    ensures var st' := RemoveTeacherFromStudent(st, teacherId, studentId).store;
      teacherId !in st'.students[studentId].teachers && studentId in st'.teachers[teacherId].students
    ensures !TutoringConsistent(RemoveTeacherFromStudent(st, teacherId, studentId).store)
  {
    assert teacherId in st.teachers && studentId in st.teachers[teacherId].students;
    RemoveFirstFromDistinct(st.students[studentId].teachers, teacherId);
  }

  /** Enrol, withdraw, enrol again: every call reports success and the
      student lists the course once, while the course's student list that this
      model carries from call to call now holds the student twice. */
  lemma ReenrolmentDuplicatesStudent(st: Store, courseId: CourseId, studentId: StudentId)
    requires Consistent(st)
    requires courseId in st.courses && studentId in st.students
    requires courseId !in st.students[studentId].courses
    ensures var o1 := AssignCourseToStudent(st, courseId, studentId);
      var o2 := RemoveCourseFromStudent(o1.store, courseId, studentId);
      var o3 := AssignCourseToStudent(o2.store, courseId, studentId);
      && o1.result == Ok(true) && o2.result == Ok(true) && o3.result == Ok(true)
      && multiset(o3.store.students[studentId].courses)[courseId] == 1
      && multiset(o3.store.courses[courseId].students)[studentId] == 2
      && !DuplicateFree(o3.store)
  {
    var o1 := AssignCourseToStudent(st, courseId, studentId);
    AssignCourseToStudentKeepsConsistency(st, courseId, studentId);
    var before := st.courses[courseId].students;
    assert o1.result == Ok(true);
    assert o1.store.courses[courseId].students == before + [studentId];
    var s1 := o1.store.students[studentId].courses;
    assert s1 == st.students[studentId].courses + [courseId];
    RemoveFirstFromDistinct(s1, courseId);
    var o2 := RemoveCourseFromStudent(o1.store, courseId, studentId);
    assert o2.result == Ok(true);
    assert o2.store.courses == o1.store.courses;
    assert o2.store.students[studentId].courses == RemoveFirst(s1, courseId);
    var o3 := AssignCourseToStudent(o2.store, courseId, studentId);
    assert o3.result == Ok(true);
    assert studentId !in before;
    assert o3.store.courses[courseId].students == before + [studentId] + [studentId];
    assert multiset(before)[studentId] == 0;
    var c3 := o3.store.students[studentId].courses;
    assert c3 == RemoveFirst(s1, courseId) + [courseId];
    assert multiset(RemoveFirst(s1, courseId))[courseId] == 0;
    var l := o3.store.courses[courseId].students;
    assert l[|l| - 2] == l[|l| - 1];
  }

  /** Under the student/course invariant the two traversals agree: a course is
      among the student's courses exactly when the student is among the
      course's students. */
  lemma EnrolmentTraversalsAgree(st: Store, courseId: CourseId, studentId: StudentId)
    requires EnrolmentConsistent(st)
    requires courseId in st.courses && studentId in st.students
    ensures FindCoursesByStudentId(st, studentId).Ok? && CourseService.FindStudentsByCourse(st, courseId).Ok?
    ensures courseId in FindCoursesByStudentId(st, studentId).value <==>
            studentId in CourseService.FindStudentsByCourse(st, courseId).value
  {
    assert (studentId in st.students && courseId in st.students[studentId].courses) <==>
           (courseId in st.courses && studentId in st.courses[courseId].students);
  }

  /** The same for students and teachers. */
  lemma TutoringTraversalsAgree(st: Store, teacherId: TeacherId, studentId: StudentId)
    requires TutoringConsistent(st)
    requires teacherId in st.teachers && studentId in st.students
    ensures FindTeachersByStudentId(st, studentId).Ok? && TeacherService.FindStudentsOfTeacher(st, teacherId).Ok?
    ensures teacherId in FindTeachersByStudentId(st, studentId).value <==>
            studentId in TeacherService.FindStudentsOfTeacher(st, teacherId).value
  {
    assert (studentId in st.students && teacherId in st.students[studentId].teachers) <==>
           (teacherId in st.teachers && studentId in st.teachers[teacherId].students);
  }

  /** After a successful or refused enrolment both traversals show it. */
  lemma AssignCourseToStudentIsVisible(st: Store, courseId: CourseId, studentId: StudentId)
    requires EnrolmentConsistent(st)
    requires AssignCourseToStudent(st, courseId, studentId).result.Ok?
    ensures var st' := AssignCourseToStudent(st, courseId, studentId).store;
      && courseId in FindCoursesByStudentId(st', studentId).value
      && studentId in CourseService.FindStudentsByCourse(st', courseId).value
  {
    var o := AssignCourseToStudent(st, courseId, studentId);
    if o.result == Ok(false) {
      assert courseId in st.students[studentId].courses;
      assert studentId in st.courses[courseId].students;
    }
  }

  /** Saving a student keeps every invariant when the store is valid: the
      fresh id is listed nowhere. */
  lemma SaveKeepsConsistency(st: Store, d: StudentDto)
    requires st.Valid() && Consistent(st)
    ensures Consistent(Save(st, d).store)
  {
    var st' := Save(st, d).store;
    var id := st.nextStudentId;
    assert forall cid :: cid in st.courses ==> id !in st.courses[cid].students;
    assert forall tid :: tid in st.teachers ==> id !in st.teachers[tid].students;
    assert EnrolmentConsistent(st');
    assert TutoringConsistent(st');
  }

  /** An update edits no relationship, so it keeps every invariant. */
  lemma UpdateKeepsConsistency(st: Store, id: StudentId, d: StudentDto)
    requires Consistent(st)
    ensures Consistent(Update(st, id, d).store)
    ensures FindById(Update(st, id, d).store, id) ==
      if id in st.students then Update(st, id, d).result else Err(NotFound(StudentKind, id))
  {
    var st' := Update(st, id, d).store;
    if id in st.students {
      assert forall sid :: sid in st'.students ==>
        st'.students[sid].courses == st.students[sid].courses &&
        st'.students[sid].teachers == st.students[sid].teachers;
      assert EnrolmentConsistent(st');
      assert TutoringConsistent(st');
    }
  }

  /** Deleting an enrolled student edits no course: the course's student list
      that this model carries still holds the deleted id. */
  lemma DeleteDoesNotDetachFromCourse(st: Store, id: StudentId, courseId: CourseId)
    requires EnrolmentConsistent(st)
    requires id in st.students && courseId in st.students[id].courses
    ensures var st' := DeleteById(st, id).store;
      id !in st'.students && id in st'.courses[courseId].students
    ensures !EnrolmentConsistent(DeleteById(st, id).store)
  {
    assert courseId in st.courses && id in st.courses[courseId].students;
  }
}
