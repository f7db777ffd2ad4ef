/** TeacherService: lookups, create, update and delete of teachers, the
    teacher-to-course assignment, and the traversals from a teacher to its
    course and its students. */
module TeacherService {
  import opened Wrappers
  import opened Errors
  import opened Entities
  import opened Store
  import opened Lists

  /** findById: the teacher's DTO, or TeacherNotFound for an unknown id. */
  function FindById(st: Store, id: TeacherId): (r: Result<TeacherDto, Error>)
    ensures r.Err? <==> id !in st.teachers
    ensures r.Err? ==> r.error == NotFound(TeacherKind, id)
    ensures r.Ok? ==> r.value.id == id && TeacherFromDto(r.value) == st.teachers[id].(students := [])
  {
    if id in st.teachers then Ok(TeacherToDto(id, st.teachers[id]))
    else Err(NotFound(TeacherKind, id))
  }

  /** findAll: one DTO per stored teacher, in ascending id order; never fails. */
  function FindAll(st: Store): (r: seq<TeacherDto>)
    ensures |r| == |st.teachers.Keys|
    ensures forall i :: 0 <= i < |r| ==>
      r[i].id in st.teachers && r[i] == TeacherToDto(r[i].id, st.teachers[r[i].id])
    ensures forall i, j :: 0 <= i < j < |r| ==> r[i].id < r[j].id
  {
    var ids := Ascending(st.teachers.Keys);
    seq(|ids|, i requires 0 <= i < |ids| => TeacherToDto(ids[i], st.teachers[ids[i]]))
  }

  /** findAll lists every stored teacher. */
  lemma FindAllListsEveryTeacher(st: Store, id: TeacherId)
    requires id in st.teachers
    ensures exists i :: 0 <= i < |FindAll(st)| && FindAll(st)[i].id == id
  {
    var ids := Ascending(st.teachers.Keys);
    var i := IndexOf(ids, id);
    assert FindAll(st)[i].id == id;
  }

  /** save: the input stored under a fresh id with no students. The DTO's
      course reference is stored as it is (the course's own teacher list is
      not touched); the returned DTO is the input with the new id. */
  function Save(st: Store, d: TeacherDto): (o: Outcome<TeacherDto>)
    ensures o.result == Ok(d.(id := st.nextTeacherId))
    ensures FindById(o.store, st.nextTeacherId) == o.result
    ensures o.store.teachers[st.nextTeacherId].students == []
    ensures o.store.teachers.Keys == st.teachers.Keys + {st.nextTeacherId}
    ensures st.Valid() ==> st.nextTeacherId !in st.teachers && o.store.Valid()
    ensures st.Valid() ==> forall id :: id in st.teachers ==> o.store.teachers[id] == st.teachers[id]
    ensures o.store.courses == st.courses && o.store.students == st.students
    ensures o.store.nextCourseId == st.nextCourseId && o.store.nextTeacherId == st.nextTeacherId + 1 && o.store.nextStudentId == st.nextStudentId
  {
    var id := st.nextTeacherId;
    Outcome(st.(teachers := st.teachers[id := TeacherFromDto(d)], nextTeacherId := id + 1),
            Ok(TeacherToDto(id, TeacherFromDto(d))))
  }

  /** update: TeacherNotFound for an unknown id; otherwise the three names and
      the age are rewritten, while the course and the students are kept even
      though the DTO carries a course. */
  function Update(st: Store, id: TeacherId, d: TeacherDto): (o: Outcome<TeacherDto>)
    ensures id !in st.teachers ==> o == Outcome(st, Err(NotFound(TeacherKind, id)))
    ensures id in st.teachers ==>
      && o.result == Ok(d.(id := id, course := st.teachers[id].course))
      && o.store == st.(teachers := st.teachers[id := UpdateTeacherFields(d, st.teachers[id])])
  {
    if id !in st.teachers then Outcome(st, Err(NotFound(TeacherKind, id)))
    else
      var t := UpdateTeacherFields(d, st.teachers[id]);
      Outcome(st.(teachers := st.teachers[id := t]), Ok(TeacherToDto(id, t)))
  }

  /** deleteById: TeacherNotFound for an unknown id; otherwise that row alone is removed. */
  function DeleteById(st: Store, id: TeacherId): (o: Outcome<()>)
    ensures id !in st.teachers ==> o == Outcome(st, Err(NotFound(TeacherKind, id)))
    ensures id in st.teachers ==> o.result == Ok(())
    ensures FindById(o.store, id) == Err(NotFound(TeacherKind, id))
    ensures o.store == st.(teachers := st.teachers - {id})
    ensures st.Valid() ==> o.store.Valid()
  {
    if id !in st.teachers then Outcome(st, Err(NotFound(TeacherKind, id)))
    else Outcome(st.(teachers := st.teachers - {id}), Ok(()))
  }

  /** assignCourseToTeacher: the course is looked up before the teacher. A
      teacher who already has a course, this one or another, is refused with
      false and nothing changes; otherwise the teacher now refers to the course
      and the course lists the teacher once more. */
  function AssignCourseToTeacher(st: Store, courseId: CourseId, teacherId: TeacherId): (o: Outcome<bool>)
    ensures courseId !in st.courses ==> o == Outcome(st, Err(NotFound(CourseKind, courseId)))
    ensures courseId in st.courses && teacherId !in st.teachers ==>
      o == Outcome(st, Err(NotFound(TeacherKind, teacherId)))
    ensures courseId in st.courses && teacherId in st.teachers ==>
      o.result == Ok(st.teachers[teacherId].course.None?)
    ensures o.result != Ok(true) ==> o.store == st
    ensures o.result == Ok(true) ==>
      && o.store == st.(
            teachers := st.teachers[teacherId := st.teachers[teacherId].(course := Some(courseId))],
            courses := st.courses[courseId := st.courses[courseId].(teachers := st.courses[courseId].teachers + [teacherId])])
      && (st.Valid() ==> o.store.Valid())
  {
    if courseId !in st.courses then Outcome(st, Err(NotFound(CourseKind, courseId)))
    else if teacherId !in st.teachers then Outcome(st, Err(NotFound(TeacherKind, teacherId)))
    else
      var course := st.courses[courseId];
      var teacher := st.teachers[teacherId];
      if teacher.course.Some? then Outcome(st, Ok(false))
      else
        Outcome(st.(teachers := st.teachers[teacherId := teacher.(course := Some(courseId))],
                    courses := st.courses[courseId := course.(teachers := course.teachers + [teacherId])]),
                Ok(true))
  }

  /** removeCourseFromTeacher: the course is looked up before the teacher. A
      teacher with no course gets false and nothing changes. Otherwise the
      teacher is removed from the GIVEN course's list and its course reference
      is cleared, whichever course it referred to. */
  function RemoveCourseFromTeacher(st: Store, courseId: CourseId, teacherId: TeacherId): (o: Outcome<bool>)
    ensures courseId !in st.courses ==> o == Outcome(st, Err(NotFound(CourseKind, courseId)))
    ensures courseId in st.courses && teacherId !in st.teachers ==>
      o == Outcome(st, Err(NotFound(TeacherKind, teacherId)))
    ensures courseId in st.courses && teacherId in st.teachers ==>
      o.result == Ok(st.teachers[teacherId].course.Some?)
    ensures o.result != Ok(true) ==> o.store == st
    ensures o.result == Ok(true) ==>
      && o.store == st.(
            teachers := st.teachers[teacherId := st.teachers[teacherId].(course := None)],
            courses := st.courses[courseId := st.courses[courseId].(teachers := RemoveFirst(st.courses[courseId].teachers, teacherId))])
      && (st.Valid() ==> o.store.Valid())
  {
    if courseId !in st.courses then Outcome(st, Err(NotFound(CourseKind, courseId)))
    else if teacherId !in st.teachers then Outcome(st, Err(NotFound(TeacherKind, teacherId)))
    else
      var course := st.courses[courseId];
      var teacher := st.teachers[teacherId];
      if teacher.course.None? then Outcome(st, Ok(false))
      else
        Outcome(st.(courses := st.courses[courseId := course.(teachers := RemoveFirst(course.teachers, teacherId))],
                    teachers := st.teachers[teacherId := teacher.(course := None)]),
                Ok(true))
  }

  /** findCourseOfTeacher: the course the repository query finds for the
      teacher. When it finds none the call throws TeacherNotFound, for an
      unknown teacher and for a teacher without a course alike, so the
      Optional it returns is never empty. The teacher table is not consulted. */
  function FindCourseOfTeacher(st: Store, teacherId: TeacherId): (r: Result<Option<CourseDto>, Error>)
    ensures r != Ok(None)
    ensures FindByTeacherId(st, teacherId) == Ok(None) ==> r == Err(NotFound(TeacherKind, teacherId))
    ensures var q := FindByTeacherId(st, teacherId);
      q.Ok? && q.value.Some? ==> r == Ok(Some(CourseToDto(q.value.value, st.courses[q.value.value])))
    ensures var q := FindByTeacherId(st, teacherId);
      q.Err? ==> r == Err(q.error)
    ensures r.Ok? ==>
      && r.value.value.id in st.courses
      && teacherId in st.courses[r.value.value.id].teachers
      && r.value.value == CourseToDto(r.value.value.id, st.courses[r.value.value.id])
  {
    match FindByTeacherId(st, teacherId)
    case Err(e) => Err(e)
    case Ok(None) => Err(NotFound(TeacherKind, teacherId))
    case Ok(Some(c)) => Ok(Some(CourseToDto(c, st.courses[c])))
  }

  /** findStudentsOfTeacher: the teacher's student list, in order, or TeacherNotFound. */
  function FindStudentsOfTeacher(st: Store, id: TeacherId): (r: Result<seq<StudentId>, Error>)
    ensures id !in st.teachers ==> r == Err(NotFound(TeacherKind, id))
    ensures id in st.teachers ==> r.Ok? && r.value == st.teachers[id].students
  {
    if id in st.teachers then Ok(st.teachers[id].students) else Err(NotFound(TeacherKind, id))
  }

  /** A successful assignment keeps the course/teacher invariant and keeps
      every list duplicate free. */
  lemma AssignCourseToTeacherKeepsStaffing(st: Store, courseId: CourseId, teacherId: TeacherId)
    requires StaffingConsistent(st) && DuplicateFree(st)
    ensures StaffingConsistent(AssignCourseToTeacher(st, courseId, teacherId).store)
    ensures DuplicateFree(AssignCourseToTeacher(st, courseId, teacherId).store)
  {
    var o := AssignCourseToTeacher(st, courseId, teacherId);
    if o.result == Ok(true) {
      var st' := o.store;
      assert st.teachers[teacherId].course == None;
      assert teacherId !in st.courses[courseId].teachers;
      AppendFresh(st.courses[courseId].teachers, teacherId);
      forall cid, tid | cid in st'.courses && tid in st'.courses[cid].teachers
        ensures tid in st'.teachers && st'.teachers[tid].course == Some(cid)
      {
        if tid != teacherId {
          assert tid in st.courses[cid].teachers;
        }
      }
      forall tid | tid in st'.teachers && st'.teachers[tid].course.Some?
        ensures st'.teachers[tid].course.value in st'.courses
        ensures tid in st'.courses[st'.teachers[tid].course.value].teachers
      {
      }
    }
  }

  /** A teacher is assigned a course at most once until it is removed: after
      a successful assignment, assigning any course to the same teacher
      returns false and changes nothing. */
  lemma AssignCourseToTeacherAtMostOnce(st: Store, courseId: CourseId, teacherId: TeacherId, otherCourseId: CourseId)
    requires AssignCourseToTeacher(st, courseId, teacherId).result == Ok(true)
    requires otherCourseId in st.courses
    ensures var st' := AssignCourseToTeacher(st, courseId, teacherId).store;
      AssignCourseToTeacher(st', otherCourseId, teacherId) == Outcome(st', Ok(false))
  {
  }

  /** Removing a teacher from the course it actually teaches keeps the
      course/teacher invariant, and the course no longer lists the teacher. */
  lemma RemoveOwnCourseKeepsStaffing(st: Store, courseId: CourseId, teacherId: TeacherId)
    requires StaffingConsistent(st) && DuplicateFree(st)
    requires teacherId in st.teachers && st.teachers[teacherId].course == Some(courseId)
    ensures RemoveCourseFromTeacher(st, courseId, teacherId).result == Ok(true)
    ensures var st' := RemoveCourseFromTeacher(st, courseId, teacherId).store;
      StaffingConsistent(st') && DuplicateFree(st') && teacherId !in st'.courses[courseId].teachers
  {
    var st' := RemoveCourseFromTeacher(st, courseId, teacherId).store;
    var old_ := st.courses[courseId].teachers;
    RemoveFirstFromDistinct(old_, teacherId);
    assert st'.courses[courseId].teachers == RemoveFirst(old_, teacherId);
    forall cid, tid | cid in st'.courses && tid in st'.courses[cid].teachers
      ensures tid in st'.teachers && st'.teachers[tid].course == Some(cid)
    {
      assert tid != teacherId;
      assert tid in st.courses[cid].teachers;
    }
    forall tid | tid in st'.teachers && st'.teachers[tid].course.Some?
      ensures st'.teachers[tid].course.value in st'.courses
      ensures tid in st'.courses[st'.teachers[tid].course.value].teachers
    {
      assert tid != teacherId;
    }
  }

  /** Removing a teacher from a course it does not teach still clears its own
      course reference, and leaves it in the teacher list this model carries
      for its own course: the course/teacher invariant is broken. */
  lemma RemoveOtherCourseBreaksStaffing(st: Store, courseId: CourseId, teacherId: TeacherId)
    requires StaffingConsistent(st)
    requires courseId in st.courses && teacherId in st.teachers
    requires st.teachers[teacherId].course.Some? && st.teachers[teacherId].course.value != courseId
    ensures RemoveCourseFromTeacher(st, courseId, teacherId).result == Ok(true)
    ensures var st' := RemoveCourseFromTeacher(st, courseId, teacherId).store;
      var taught := st.teachers[teacherId].course.value;
      st'.teachers[teacherId].course == None && teacherId in st'.courses[taught].teachers
    ensures !StaffingConsistent(RemoveCourseFromTeacher(st, courseId, teacherId).store)
  {
    var st' := RemoveCourseFromTeacher(st, courseId, teacherId).store;
    var taught := st.teachers[teacherId].course.value;
    assert st'.courses[taught] == st.courses[taught];
    assert st'.teachers[teacherId].course != Some(taught);
  }

  /** Under the course/teacher invariant, findCourseOfTeacher answers with the
      course the teacher refers to, and with TeacherNotFound when it refers to
      none or does not exist. */
  lemma CourseOfTeacherFollowsReference(st: Store, teacherId: TeacherId)
    requires StaffingConsistent(st)
    ensures FindCourseOfTeacher(st, teacherId) ==
      if teacherId in st.teachers && st.teachers[teacherId].course.Some?
      then Ok(Some(CourseToDto(st.teachers[teacherId].course.value,
                              st.courses[st.teachers[teacherId].course.value])))
      else Err(NotFound(TeacherKind, teacherId))
  {
    var listing := CoursesListing(st, teacherId);
    if teacherId in st.teachers && st.teachers[teacherId].course.Some? {
      var c := st.teachers[teacherId].course.value;
      forall x ensures x in listing <==> x == c {
        if x in listing {
          assert x in st.courses && teacherId in st.courses[x].teachers;
        }
      }
      assert listing == {c};
    } else {
      forall x ensures x !in listing {
        if x in listing {
          assert false;
        }
      }
      assert listing == {};
    }
  }

  /** Over the course lists this model carries from call to call: after a
      teacher of one course is "removed" from a second course and then assigned
      to it, both carried lists hold the teacher, and the query over them fails
      with a non-unique result. */
  lemma StaleListingBreaksCourseQuery(st: Store, taught: CourseId, other: CourseId, teacherId: TeacherId)
    requires StaffingConsistent(st)
    requires other in st.courses && teacherId in st.teachers
    requires st.teachers[teacherId].course == Some(taught) && taught != other
    ensures var st1 := RemoveCourseFromTeacher(st, other, teacherId).store;
      var o2 := AssignCourseToTeacher(st1, other, teacherId);
      o2.result == Ok(true) &&
      FindCourseOfTeacher(o2.store, teacherId).Err? &&
      FindCourseOfTeacher(o2.store, teacherId).error.NonUniqueResult?
  {
    var st1 := RemoveCourseFromTeacher(st, other, teacherId).store;
    RemoveOtherCourseBreaksStaffing(st, other, teacherId);
    var st2 := AssignCourseToTeacher(st1, other, teacherId).store;
    assert teacherId in st2.courses[taught].teachers;
    assert teacherId in st2.courses[other].teachers;
  }

  /** Saving a teacher without a course keeps every invariant: the fresh id is
      listed nowhere. */
  lemma SaveWithoutCourseKeepsConsistency(st: Store, d: TeacherDto)
    requires st.Valid() && Consistent(st) && d.course == None
    ensures Consistent(Save(st, d).store)
  {
    var st' := Save(st, d).store;
    var id := st.nextTeacherId;
    assert forall cid :: cid in st.courses ==> id !in st.courses[cid].teachers;
    assert forall sid :: sid in st.students ==> id !in st.students[sid].teachers;
    assert TutoringConsistent(st');
  }

  /** Saving a teacher with a course sets only the teacher's side: the course
      does not list the new teacher, so the course/teacher invariant fails. */
  lemma SaveWithCourseBreaksStaffing(st: Store, d: TeacherDto)
    requires st.Valid() && StaffingConsistent(st)
    requires d.course.Some? && d.course.value in st.courses
    ensures !StaffingConsistent(Save(st, d).store)
  {
    var st' := Save(st, d).store;
    var id := st.nextTeacherId;
    var c := d.course.value;
    assert id !in st.teachers;
    assert id !in st.courses[c].teachers by {
      if id in st.courses[c].teachers {
        assert false;
      }
    }
    assert st'.courses == st.courses;
    assert id in st'.teachers && st'.teachers[id].course == Some(c);
  }

  /** Deleting a teacher edits no course: the course list this model carries
      still holds the deleted id. */
  lemma DeleteDoesNotDetachFromCourse(st: Store, id: TeacherId, courseId: CourseId)
    requires courseId in st.courses && id in st.courses[courseId].teachers && id in st.teachers
    ensures var st' := DeleteById(st, id).store;
      id !in st'.teachers && id in st'.courses[courseId].teachers
    ensures !StaffingConsistent(DeleteById(st, id).store)
  {
  }
  /** An update edits neither the course reference nor the student list, so
      it keeps every invariant, and a lookup afterwards returns what the
      update returned. */
  lemma UpdateKeepsConsistency(st: Store, id: TeacherId, d: TeacherDto)
    requires Consistent(st)
    ensures Consistent(Update(st, id, d).store)
    ensures FindById(Update(st, id, d).store, id) ==
      if id in st.teachers then Update(st, id, d).result else Err(NotFound(TeacherKind, id))
  {
    var st' := Update(st, id, d).store;
    if id in st.teachers {
      assert forall tid :: tid in st'.teachers ==>
        st'.teachers[tid].course == st.teachers[tid].course &&
        st'.teachers[tid].students == st.teachers[tid].students;
      assert TutoringConsistent(st');
      assert StaffingConsistent(st');
    }
  }
}
