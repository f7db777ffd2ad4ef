/** The three persisted entities, the DTOs the services exchange with their
    callers, and the mappers between them.

    A record does not hold its own id: the registry's tables are keyed by it.
    Relationships hold the ids of the related records, and membership in a
    relationship list is id equality (the entities do not override equals, and
    one unit of work holds one instance per id). */
module Entities {
  import opened Wrappers

  type CourseId = int
  type TeacherId = int
  type StudentId = int

  datatype Course = Course(
    courseName: string,
    teachers: seq<TeacherId>,
    students: seq<StudentId>)

  datatype Teacher = Teacher(
    firstName: string,
    lastName: string,
    middleName: string,
    age: int,
    course: Option<CourseId>,
    students: seq<StudentId>)

  datatype Student = Student(
    firstName: string,
    lastName: string,
    middleName: string,
    age: int,
    courses: seq<CourseId>,
    teachers: seq<TeacherId>)

  /** The DTOs carry no relationship lists. A teacher's nested course DTO is
      represented by the course's id. */
  datatype CourseDto = CourseDto(id: CourseId, courseName: string)

  datatype TeacherDto = TeacherDto(
    id: TeacherId,
    firstName: string,
    lastName: string,
    middleName: string,
    age: int,
    course: Option<CourseId>)

  datatype StudentDto = StudentDto(
    id: StudentId,
    firstName: string,
    lastName: string,
    middleName: string,
    age: int)

  /** toDto: a field-for-field copy of the record under its id. */
  function CourseToDto(id: CourseId, c: Course): CourseDto
  {
    CourseDto(id, c.courseName)
  }

  /** toEntity: the DTO's fields, with no teachers and no students yet. The
      DTO's id is not part of the record. */
  function CourseFromDto(d: CourseDto): (c: Course)
    ensures c.teachers == [] && c.students == []
    ensures CourseToDto(d.id, c) == d
  {
    Course(d.courseName, [], [])
  }

  function TeacherToDto(id: TeacherId, t: Teacher): TeacherDto
  {
    TeacherDto(id, t.firstName, t.lastName, t.middleName, t.age, t.course)
  }

  /** toEntity for a teacher copies the nested course too: a teacher may be
      saved already pointing at a course. */
  function TeacherFromDto(d: TeacherDto): (t: Teacher)
    ensures t.students == [] && t.course == d.course
    ensures TeacherToDto(d.id, t) == d
  {
    Teacher(d.firstName, d.lastName, d.middleName, d.age, d.course, [])
  }

  function StudentToDto(id: StudentId, s: Student): StudentDto
  {
    StudentDto(id, s.firstName, s.lastName, s.middleName, s.age)
  }

  function StudentFromDto(d: StudentDto): (s: Student)
    ensures s.courses == [] && s.teachers == []
    ensures StudentToDto(d.id, s) == d
  {
    Student(d.firstName, d.lastName, d.middleName, d.age, [], [])
  }

  /** updateCourse: the name is the only field a course update writes. */
  function UpdateCourseFields(d: CourseDto, c: Course): (c': Course)
    ensures c'.courseName == d.courseName
    ensures c'.teachers == c.teachers && c'.students == c.students
  {
    c.(courseName := d.courseName)
  }

  /** updateTeacher: the three names and the age; the DTO's course is ignored. */
  function UpdateTeacherFields(d: TeacherDto, t: Teacher): (t': Teacher)
    ensures TeacherToDto(d.id, t') == d.(course := t.course)
    ensures t'.course == t.course && t'.students == t.students
  {
    t.(firstName := d.firstName, lastName := d.lastName, middleName := d.middleName, age := d.age)
  }

  /** updateStudent: the three names and the age. */
  function UpdateStudentFields(d: StudentDto, s: Student): (s': Student)
    ensures StudentToDto(d.id, s') == d
    ensures s'.courses == s.courses && s'.teachers == s.teachers
  {
    s.(firstName := d.firstName, lastName := d.lastName, middleName := d.middleName, age := d.age)
  }
}
