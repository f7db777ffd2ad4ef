/** The registry in place: the three tables and their identity counters as
    fields, and every writing operation of the three services as a method
    that edits those fields the way the service edits the managed entities.
    Each method is proved to leave exactly the state, and return exactly the
    answer, that the corresponding service function gives, so every lemma
    about the service functions holds of the registry too. */
module Registry {
  import opened Wrappers
  import opened Errors
  import opened Entities
  import opened Store
  import opened Lists
  import CourseService
  import TeacherService
  import StudentService

  class Registry {
    var courses: map<CourseId, Course>
    var teachers: map<TeacherId, Teacher>
    var students: map<StudentId, Student>
    var nextCourseId: int
    var nextTeacherId: int
    var nextStudentId: int

    /** The registry's contents as a value. */
    function State(): Store
      reads this
    {
      Store(courses, teachers, students, nextCourseId, nextTeacherId, nextStudentId)
    }

    ghost predicate Valid()
      reads this
    {
      State().Valid()
    }

    /** An empty database: no rows, every counter at 1. */
    constructor ()
      ensures Valid() && State() == Empty && Consistent(State())
    {
      courses, teachers, students := map[], map[], map[];
      nextCourseId, nextTeacherId, nextStudentId := 1, 1, 1;
    }

    // ---- CourseService ----

    method SaveCourse(d: CourseDto) returns (saved: CourseDto)
      requires Valid()
      modifies this
      ensures Valid()
      ensures Outcome(State(), Ok(saved)) == CourseService.Save(old(State()), d)
    {
      var course := CourseFromDto(d);
      var id := nextCourseId;
      courses := courses[id := course];
      nextCourseId := id + 1;
      saved := CourseToDto(id, course);
    }

    method UpdateCourse(id: CourseId, d: CourseDto) returns (r: Result<CourseDto, Error>)
      requires Valid()
      modifies this
      ensures Valid()
      ensures Outcome(State(), r) == CourseService.Update(old(State()), id, d)
    {
      if id !in courses {
        return Err(NotFound(CourseKind, id));
      }
      var course := courses[id];
      course := course.(courseName := d.courseName);
      courses := courses[id := course];
      r := Ok(CourseToDto(id, course));
    }

    method DeleteCourse(id: CourseId) returns (r: Result<(), Error>)
      requires Valid()
      modifies this
      ensures Valid()
      ensures Outcome(State(), r) == CourseService.DeleteById(old(State()), id)
    {
      if id !in courses {
        return Err(NotFound(CourseKind, id));
      }
      courses := courses - {id};
      r := Ok(());
    }

    // ---- TeacherService ----

    method SaveTeacher(d: TeacherDto) returns (saved: TeacherDto)
      requires Valid()
      modifies this
      ensures Valid()
      ensures Outcome(State(), Ok(saved)) == TeacherService.Save(old(State()), d)
    {
      var teacher := TeacherFromDto(d);
      var id := nextTeacherId;
      teachers := teachers[id := teacher];
      nextTeacherId := id + 1;
      saved := TeacherToDto(id, teacher);
    }

    method UpdateTeacher(id: TeacherId, d: TeacherDto) returns (r: Result<TeacherDto, Error>)
      requires Valid()
      modifies this
      ensures Valid()
      ensures Outcome(State(), r) == TeacherService.Update(old(State()), id, d)
    {
      if id !in teachers {
        return Err(NotFound(TeacherKind, id));
      }
      var teacher := teachers[id];
      teacher := teacher.(firstName := d.firstName);
      teacher := teacher.(lastName := d.lastName);
      teacher := teacher.(middleName := d.middleName);
      teacher := teacher.(age := d.age);
      teachers := teachers[id := teacher];
      r := Ok(TeacherToDto(id, teacher));
    }

    method DeleteTeacher(id: TeacherId) returns (r: Result<(), Error>)
      requires Valid()
      modifies this
      ensures Valid()
      ensures Outcome(State(), r) == TeacherService.DeleteById(old(State()), id)
    {
      if id !in teachers {
        return Err(NotFound(TeacherKind, id));
      }
      teachers := teachers - {id};
      r := Ok(());
    }

    method AssignCourseToTeacher(courseId: CourseId, teacherId: TeacherId) returns (r: Result<bool, Error>)
      requires Valid()
      modifies this
      ensures Valid()
      ensures Outcome(State(), r) == TeacherService.AssignCourseToTeacher(old(State()), courseId, teacherId)
    {
      if courseId !in courses {
        return Err(NotFound(CourseKind, courseId));
      }
      var course := courses[courseId];
      if teacherId !in teachers {
        return Err(NotFound(TeacherKind, teacherId));
      }
      var teacher := teachers[teacherId];
      if teacher.course.Some? {
        return Ok(false);
      }
      teachers := teachers[teacherId := teacher.(course := Some(courseId))];
      courses := courses[courseId := course.(teachers := course.teachers + [teacherId])];
      r := Ok(true);
    }

    method RemoveCourseFromTeacher(courseId: CourseId, teacherId: TeacherId) returns (r: Result<bool, Error>)
      requires Valid()
      modifies this
      ensures Valid()
      ensures Outcome(State(), r) == TeacherService.RemoveCourseFromTeacher(old(State()), courseId, teacherId)
    {
      if courseId !in courses {
        return Err(NotFound(CourseKind, courseId));
      }
      var course := courses[courseId];
      if teacherId !in teachers {
        return Err(NotFound(TeacherKind, teacherId));
      }
      var teacher := teachers[teacherId];
      if teacher.course.None? {
        return Ok(false);
      }
      courses := courses[courseId := course.(teachers := RemoveFirst(course.teachers, teacherId))];
      teachers := teachers[teacherId := teacher.(course := None)];
      r := Ok(true);
    }

    // ---- StudentService ----

    method SaveStudent(d: StudentDto) returns (saved: StudentDto)
      requires Valid()
      modifies this
      ensures Valid()
      ensures Outcome(State(), Ok(saved)) == StudentService.Save(old(State()), d)
    {
      var student := StudentFromDto(d);
      var id := nextStudentId;
      students := students[id := student];
      nextStudentId := id + 1;
      saved := StudentToDto(id, student);
    }

    method UpdateStudent(id: StudentId, d: StudentDto) returns (r: Result<StudentDto, Error>)
      requires Valid()
      modifies this
      ensures Valid()
      ensures Outcome(State(), r) == StudentService.Update(old(State()), id, d)
    {
      if id !in students {
        return Err(NotFound(StudentKind, id));
      }
      var student := students[id];
      student := student.(firstName := d.firstName);
      student := student.(lastName := d.lastName);
      student := student.(middleName := d.middleName);
      student := student.(age := d.age);
      students := students[id := student];
      r := Ok(StudentToDto(id, student));
    }

    method DeleteStudent(id: StudentId) returns (r: Result<(), Error>)
      requires Valid()
      modifies this
      ensures Valid()
      ensures Outcome(State(), r) == StudentService.DeleteById(old(State()), id)
    {
      if id !in students {
        return Err(NotFound(StudentKind, id));
      }
      students := students - {id};
      r := Ok(());
    }

    method AssignCourseToStudent(courseId: CourseId, studentId: StudentId) returns (r: Result<bool, Error>)
      requires Valid()
      modifies this
      ensures Valid()
      ensures Outcome(State(), r) == StudentService.AssignCourseToStudent(old(State()), courseId, studentId)
    {
      if courseId !in courses {
        return Err(NotFound(CourseKind, courseId));
      }
      var course := courses[courseId];
      if studentId !in students {
        return Err(NotFound(StudentKind, studentId));
      }
      var student := students[studentId];
      if courseId in student.courses {
        return Ok(false);
      }
      students := students[studentId := student.(courses := student.courses + [courseId])];
      courses := courses[courseId := course.(students := course.students + [studentId])];
      r := Ok(true);
    }

    method AssignTeacherToStudent(teacherId: TeacherId, studentId: StudentId) returns (r: Result<bool, Error>)
      requires Valid()
      modifies this
      ensures Valid()
      ensures Outcome(State(), r) == StudentService.AssignTeacherToStudent(old(State()), teacherId, studentId)
    {
      if studentId !in students {
        return Err(NotFound(StudentKind, studentId));
      }
      var student := students[studentId];
      if teacherId !in teachers {
        return Err(NotFound(TeacherKind, teacherId));
      }
      var teacher := teachers[teacherId];
      if teacherId in student.teachers {
        return Ok(false);
      }
      students := students[studentId := student.(teachers := student.teachers + [teacherId])];
      teachers := teachers[teacherId := teacher.(students := teacher.students + [studentId])];
      r := Ok(true);
    }

    method RemoveTeacherFromStudent(teacherId: TeacherId, studentId: StudentId) returns (r: Result<bool, Error>)
      requires Valid()
      modifies this
      ensures Valid()
      ensures Outcome(State(), r) == StudentService.RemoveTeacherFromStudent(old(State()), teacherId, studentId)
    {
      if studentId !in students {
        return Err(NotFound(StudentKind, studentId));
      }
      var student := students[studentId];
      if teacherId !in teachers {
        return Err(NotFound(TeacherKind, teacherId));
      }
      if teacherId !in student.teachers {
        return Ok(false);
      }
      students := students[studentId := student.(teachers := RemoveFirst(student.teachers, teacherId))];
      r := Ok(true);
    }

    method RemoveCourseFromStudent(courseId: CourseId, studentId: StudentId) returns (r: Result<bool, Error>)
      requires Valid()
      modifies this
      ensures Valid()
      ensures Outcome(State(), r) == StudentService.RemoveCourseFromStudent(old(State()), courseId, studentId)
    {
      if courseId !in courses {
        return Err(NotFound(CourseKind, courseId));
      }
      if studentId !in students {
        return Err(NotFound(StudentKind, studentId));
      }
      var student := students[studentId];
      if courseId !in student.courses {
        return Ok(false);
      }
      students := students[studentId := student.(courses := RemoveFirst(student.courses, courseId))];
      r := Ok(true);
    }
  }
}
