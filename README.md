# LC Management System: course, teacher and student services in Dafny

This project models the service layer of a small learning-centre registry.
The registry has three entities:

- **Courses** are many-to-many with students.
- **Teachers** belong to at most one course.
- **Students** are many-to-many with courses and with teachers.

The three services are `CourseService`, `TeacherService` and `StudentService`. Between them they do three things:

- look records up by id and list them;
- create, update and delete records;
- attach and detach the relationships between records.

Each relationship operation checks the current state first. It returns `false` when there is nothing to do, and it throws a "not found" exception when an id is unknown.

## Layout

- `wrappers.dfy`: `Option` and `Result`.
- `errors.dfy`: the three "not found" exceptions and the text of their message, `<Title> with id <id> not found`, with a parser for that message. It also holds the failure of a single-result query that matches several rows.
- `lists.dfy`: the `java.util.List` operations the services use. `contains` is membership, `add` is append, and `remove(Object)` is `RemoveFirst`, which drops the first equal element.
- `entities.dfy`:
  - the records: course, teacher, student;
  - their DTOs;
  - the field-for-field mappers;
  - the three `update*` field copies.
- `store.dfy`:
  - the database as a value: three tables keyed by id, and one identity counter per table starting at 1;
  - `CourseRepository.findByTeacherId`;
  - the invariants of the relationship model, which are defined here and then checked against each operation.
- `course_service.dfy`, `teacher_service.dfy`, `student_service.dfy`: every service operation as a function over the store, plus the lemmas about it.
  - An operation that writes returns an `Outcome`: the new store together with the result or the exception.
- `registry.dfy`: the class `Registry`. Its fields are the three tables and the three counters. It has one method per writing operation, and each method edits its fields one step at a time, as the service edits the managed entities. Every method is proved to produce exactly the store and the answer of the corresponding service function. So every lemma proved about the functions also holds for the class.

## Modelling choices

- **Membership is by id.** The entities do not override `equals`, and one unit of work holds one instance per id. A relationship list is therefore a sequence of ids.
- **Inverse sides are stored lists.** A course's teachers and students and a teacher's students are kept as stored lists, because the service code reads and edits them directly.
- **Lookup order follows the code.** Where an operation looks up two entities, the model looks them up in the same order, so when both are missing the error is the first one the code looks for.
- **Traversals return ids.** A traversal returns the referenced ids in list order. It does not return DTOs, so the model never has to resolve an id that a delete has left dangling.
- **`findAll` is in ascending id order.** The order of `findAll` belongs to the database. The model fixes it as ascending id.
- **`findByTeacherId` counts matching courses.** It collects the set of courses whose teacher list holds the id:
  - none gives an empty result;
  - one gives that course;
  - more than one gives the single-result failure, `NonUniqueResult`.
- **The service code's own behaviour is modelled as written.** Three points stand out:
  - **Deletes do not detach.** A delete removes one row and edits no other record. The lemmas `*.DeleteDoesNotDetach*` show the references that the model still carries afterwards.
  - **`findCourseOfTeacher` is never empty.** For an existing teacher without a course it throws `TeacherNotFound`, as it does for an unknown teacher.
  - **Some operations edit one side only.** In the code:
    - `removeCourseFromStudent` and `removeTeacherFromStudent` edit only the student's list;
    - `removeCourseFromTeacher` edits the given course, even when it is not the teacher's course;
    - `save` of a teacher sets its course without listing it on the course.

    Lemmas show which invariant each of these breaks over the lists the model carries from call to call.

## Model

| member | source | states |
|---|---|---|
| Errors.NotFoundMessageRoundTrip | src/main/java/com/infinbank/rest/exception/EntityNotFoundException.java:5-7 | the entity kind and the id can be read back from a "not found" message |
| Errors.NotFoundMessageInjective | src/main/java/com/infinbank/rest/exception/EntityNotFoundException.java:6 | two "not found" messages are equal only when both the kind and the id are equal |
| Errors.DecimalRoundTrip | src/main/java/com/infinbank/rest/exception/EntityNotFoundException.java:6 | the decimal numeral written for an id parses back to the same integer, negative ids included |
| Errors.Digits | src/main/java/com/infinbank/rest/exception/EntityNotFoundException.java:6 | the digits of a number are a non-empty string of decimal digits with no leading zero |
| Lists.RemoveFirst | src/main/java/com/infinbank/rest/service/StudentService.java:144 | `List.remove(Object)` takes exactly one copy of the element out of the list's multiset, and leaves the list unchanged when the element is absent |
| Lists.RemoveFirstCutsFirstOccurrence | src/main/java/com/infinbank/rest/service/StudentService.java:160 | the removal cuts out the first occurrence and keeps every other element in order |
| Lists.RemoveFirstFromDistinct | src/main/java/com/infinbank/rest/service/TeacherService.java:120 | on a duplicate-free list, the removal leaves no copy of the element, keeps all other elements and stays duplicate free |
| Lists.IndexOf | src/main/java/com/infinbank/rest/service/StudentService.java:96 | the first position at which a contained element occurs |
| Entities.CourseFromDto | src/main/java/com/infinbank/rest/mapper/CourseMapper.java:10-12 | a new course has empty teacher and student lists, and mapping it back under the DTO's id gives the DTO |
| Entities.TeacherFromDto | src/main/java/com/infinbank/rest/mapper/TeacherMapper.java:10-12 | a new teacher has no students, keeps the DTO's course, and maps back to the DTO |
| Entities.StudentFromDto | src/main/java/com/infinbank/rest/mapper/StudentMapper.java:10-12 | a new student has no courses and no teachers, and maps back to the DTO |
| Entities.UpdateCourseFields | src/main/java/com/infinbank/rest/service/CourseService.java:167-169 | only the course name is written; the teachers and students are kept |
| Entities.UpdateTeacherFields | src/main/java/com/infinbank/rest/service/TeacherService.java:126-131 | the three names and the age come from the DTO; the course and the students are kept, whatever course the DTO carries |
| Entities.UpdateStudentFields | src/main/java/com/infinbank/rest/service/StudentService.java:165-170 | the three names and the age come from the DTO; the courses and teachers are kept |
| Store.Ascending | src/main/java/com/infinbank/rest/service/CourseService.java:76 | the listing order of a table: each id exactly once, strictly increasing |
| Store.FindByTeacherId | src/main/java/com/infinbank/rest/repository/CourseRepository.java:14-15 | empty exactly when no course lists the teacher; otherwise the unique course that lists it; a failure with a count of at least 2 when several courses do |
| Store.EmptyIsConsistent | src/main/java/com/infinbank/rest/model/Course.java:17-20 | the empty database satisfies every invariant, and every counter is above every id in use |
| CourseService.FindById | src/main/java/com/infinbank/rest/service/CourseService.java:63-66 | fails exactly for an unknown id, with CourseNotFound for that id; otherwise returns that course's id and name |
| CourseService.FindAll | src/main/java/com/infinbank/rest/service/CourseService.java:75-80 | one DTO per stored course, each equal to its record's mapping, in ascending id order |
| CourseService.FindAllListsEveryCourse | src/main/java/com/infinbank/rest/service/CourseService.java:75-80 | every stored course appears in the listing |
| CourseService.Save | src/main/java/com/infinbank/rest/service/CourseService.java:89-93 | returns the input under a fresh id; a lookup of that id returns the same DTO; the new course has no teachers or students; every other record and the other two counters are unchanged, and the course counter moves on by one |
| CourseService.Update | src/main/java/com/infinbank/rest/service/CourseService.java:106-112 | CourseNotFound with no change for an unknown id; otherwise only the course name changes and the result carries the id and the new name |
| CourseService.UpdateKeepsConsistency | src/main/java/com/infinbank/rest/service/CourseService.java:106-112 | an update keeps every invariant, and a lookup afterwards returns what the update returned |
| CourseService.SaveKeepsConsistency | src/main/java/com/infinbank/rest/service/CourseService.java:89-93 | saving a course keeps every invariant |
| CourseService.DeleteById | src/main/java/com/infinbank/rest/service/CourseService.java:123-127 | CourseNotFound with no change for an unknown id; otherwise the new state is the old one with exactly that row removed (counters included), and later lookups fail |
| CourseService.DeleteDoesNotDetachTeachers | src/main/java/com/infinbank/rest/service/CourseService.java:126 | after the delete, a teacher of the course still refers to it, so the course/teacher invariant fails |
| CourseService.DeleteDoesNotDetachStudents | src/main/java/com/infinbank/rest/service/CourseService.java:126 | after the delete, an enrolled student still lists the course, so the student/course invariant fails |
| CourseService.FindStudentsByCourse | src/main/java/com/infinbank/rest/service/CourseService.java:137-143 | CourseNotFound for an unknown id; otherwise the course's student list, element for element and in order |
| CourseService.FindTeachersByCourse | src/main/java/com/infinbank/rest/service/CourseService.java:153-159 | CourseNotFound for an unknown id; otherwise the course's teacher list, element for element and in order |
| TeacherService.FindById | src/main/java/com/infinbank/rest/service/TeacherService.java:39-43 | fails exactly for an unknown id, with TeacherNotFound; otherwise returns the teacher's fields and course under its id |
| TeacherService.FindAll | src/main/java/com/infinbank/rest/service/TeacherService.java:46-51 | one DTO per stored teacher, each equal to its record's mapping, in ascending id order |
| TeacherService.FindAllListsEveryTeacher | src/main/java/com/infinbank/rest/service/TeacherService.java:46-51 | every stored teacher appears in the listing |
| TeacherService.Save | src/main/java/com/infinbank/rest/service/TeacherService.java:54-58 | returns the input under a fresh id, including its course; a lookup returns the same DTO; no students; courses and students are not edited; only the teacher counter moves on, by one |
| TeacherService.SaveWithoutCourseKeepsConsistency | src/main/java/com/infinbank/rest/service/TeacherService.java:54-58 | saving a teacher without a course keeps every invariant |
| TeacherService.SaveWithCourseBreaksStaffing | src/main/java/com/infinbank/rest/service/TeacherService.java:54-58 | saving a teacher that names an existing course breaks the course/teacher invariant, because the course does not list the new teacher |
| TeacherService.Update | src/main/java/com/infinbank/rest/service/TeacherService.java:61-67 | TeacherNotFound with no change for an unknown id; otherwise the names and age change, and the course and students are kept; the result carries the kept course |
| TeacherService.UpdateKeepsConsistency | src/main/java/com/infinbank/rest/service/TeacherService.java:61-67 | an update keeps every invariant, and a lookup afterwards returns what the update returned |
| TeacherService.DeleteById | src/main/java/com/infinbank/rest/service/TeacherService.java:70-74 | TeacherNotFound with no change for an unknown id; otherwise the new state is the old one with exactly that row removed, and later lookups fail |
| TeacherService.DeleteDoesNotDetachFromCourse | src/main/java/com/infinbank/rest/service/TeacherService.java:73 | the course list the model carries still holds the deleted teacher, so the course/teacher invariant fails |
| TeacherService.AssignCourseToTeacher | src/main/java/com/infinbank/rest/service/TeacherService.java:77-90 | CourseNotFound is checked before TeacherNotFound; the call answers true exactly when the teacher has no course; on false nothing changes; on true the whole new state is the old one with the teacher referring to the course and the course's teacher list grown by exactly that teacher |
| TeacherService.AssignCourseToTeacherKeepsStaffing | src/main/java/com/infinbank/rest/service/TeacherService.java:83-89 | an assignment keeps the course/teacher invariant and keeps every list duplicate free |
| TeacherService.AssignCourseToTeacherAtMostOnce | src/main/java/com/infinbank/rest/service/TeacherService.java:83-85 | after a successful assignment, assigning any course to the same teacher answers false and changes nothing |
| TeacherService.RemoveCourseFromTeacher | src/main/java/com/infinbank/rest/service/TeacherService.java:111-124 | CourseNotFound is checked before TeacherNotFound; the call answers false with no change exactly when the teacher has no course; otherwise the whole new state is the old one with the teacher taken out of the GIVEN course's list and its course cleared |
| TeacherService.RemoveOwnCourseKeepsStaffing | src/main/java/com/infinbank/rest/service/TeacherService.java:117-123 | removing a teacher from its own course succeeds, keeps the course/teacher invariant and duplicate freedom, and leaves the course without that teacher |
| TeacherService.RemoveOtherCourseBreaksStaffing | src/main/java/com/infinbank/rest/service/TeacherService.java:117-123 | removing a teacher from a course it does not teach still succeeds and clears its course, while its own course still lists it; the invariant fails |
| TeacherService.FindCourseOfTeacher | src/main/java/com/infinbank/rest/service/TeacherService.java:93-100 | never an empty result; TeacherNotFound whenever the query finds no course; the DTO of the course the query finds when it finds one; the query's own failure passed on |
| TeacherService.CourseOfTeacherFollowsReference | src/main/java/com/infinbank/rest/service/TeacherService.java:93-98 | under the course/teacher invariant, the answer is the course the teacher refers to, or TeacherNotFound when the teacher is absent or has no course |
| TeacherService.StaleListingBreaksCourseQuery | src/main/java/com/infinbank/rest/service/TeacherService.java:117-123 | removing a teacher from a course it does not teach and then assigning it there leaves the teacher in two of the course lists the model carries, and findCourseOfTeacher over them fails with a non-unique result |
| TeacherService.FindStudentsOfTeacher | src/main/java/com/infinbank/rest/service/TeacherService.java:103-108 | TeacherNotFound for an unknown id; otherwise the teacher's student list, element for element |
| StudentService.FindById | src/main/java/com/infinbank/rest/service/StudentService.java:42-46 | fails exactly for an unknown id, with StudentNotFound; otherwise returns the student's fields under its id |
| StudentService.FindAll | src/main/java/com/infinbank/rest/service/StudentService.java:49-54 | one DTO per stored student, each equal to its record's mapping, in ascending id order |
| StudentService.FindAllListsEveryStudent | src/main/java/com/infinbank/rest/service/StudentService.java:49-54 | every stored student appears in the listing |
| StudentService.Save | src/main/java/com/infinbank/rest/service/StudentService.java:57-61 | returns the input under a fresh id; a lookup returns the same DTO; no courses or teachers; other records unchanged; only the student counter moves on, by one |
| StudentService.SaveKeepsConsistency | src/main/java/com/infinbank/rest/service/StudentService.java:57-61 | saving a student keeps every invariant |
| StudentService.Update | src/main/java/com/infinbank/rest/service/StudentService.java:64-70 | StudentNotFound with no change for an unknown id; otherwise only the names and age change, and the result is the input under that id |
| StudentService.UpdateKeepsConsistency | src/main/java/com/infinbank/rest/service/StudentService.java:64-70 | an update keeps every invariant, and a lookup afterwards returns what the update returned |
| StudentService.DeleteById | src/main/java/com/infinbank/rest/service/StudentService.java:73-77 | StudentNotFound with no change for an unknown id; otherwise the new state is the old one with exactly that row removed, and later lookups fail |
| StudentService.DeleteDoesNotDetachFromCourse | src/main/java/com/infinbank/rest/service/StudentService.java:76 | the course's student list the model carries still holds the deleted student, so the student/course invariant fails |
| StudentService.FindCoursesByStudentId | src/main/java/com/infinbank/rest/service/StudentService.java:80-86 | StudentNotFound for an unknown id; otherwise the student's course list, element for element |
| StudentService.FindTeachersByStudentId | src/main/java/com/infinbank/rest/service/StudentService.java:106-114 | StudentNotFound for an unknown id; otherwise the student's teacher list, element for element |
| StudentService.AssignCourseToStudent | src/main/java/com/infinbank/rest/service/StudentService.java:89-103 | CourseNotFound is checked before StudentNotFound; the call answers true exactly when the student does not yet list the course; on false nothing changes; on true the course joins the student's list and the student joins the course's list, and nothing else changes |
| StudentService.AssignCourseToStudentKeepsConsistency | src/main/java/com/infinbank/rest/service/StudentService.java:95-102 | an enrolment keeps every invariant, duplicate freedom included |
| StudentService.AssignCourseToStudentIsVisible | src/main/java/com/infinbank/rest/service/StudentService.java:95-100 | after an enrolment that succeeds or is refused, both traversals show it |
| StudentService.EnrolmentTraversalsAgree | src/main/java/com/infinbank/rest/service/StudentService.java:80-86 | under the student/course invariant, a course is among a student's courses exactly when the student is among the course's students |
| StudentService.AssignTeacherToStudent | src/main/java/com/infinbank/rest/service/StudentService.java:117-131 | StudentNotFound is checked before TeacherNotFound; the call answers true exactly when the student does not yet list the teacher; on false nothing changes; on true both lists grow by the other id |
| StudentService.AssignTeacherToStudentKeepsConsistency | src/main/java/com/infinbank/rest/service/StudentService.java:123-130 | attaching a teacher keeps every invariant |
| StudentService.TutoringTraversalsAgree | src/main/java/com/infinbank/rest/service/StudentService.java:106-114 | under the student/teacher invariant, a teacher is among a student's teachers exactly when the student is among the teacher's students |
| StudentService.RemoveTeacherFromStudent | src/main/java/com/infinbank/rest/service/StudentService.java:134-147 | StudentNotFound is checked before TeacherNotFound; the call answers false with no change exactly when the student does not list the teacher; otherwise only the student's list loses the teacher |
| StudentService.RemoveTeacherFromStudentBreaksTutoring | src/main/java/com/infinbank/rest/service/StudentService.java:140-146 | after a detachment the teacher still lists the student, so the student/teacher invariant fails |
| StudentService.RemoveCourseFromStudent | src/main/java/com/infinbank/rest/service/StudentService.java:150-163 | CourseNotFound is checked before StudentNotFound; the call answers false with no change exactly when the student is not enrolled; otherwise only the student's list loses the course |
| StudentService.RemoveCourseFromStudentBreaksEnrolment | src/main/java/com/infinbank/rest/service/StudentService.java:156-162 | after a withdrawal the course still lists the student, so the student/course invariant fails |
| StudentService.ReenrolmentDuplicatesStudent | src/main/java/com/infinbank/rest/service/StudentService.java:89-103 | enrolling, withdrawing and enrolling again all succeed; the student lists the course once, but the course's student list the model carries holds the student twice |
| Registry.Registry.constructor | src/main/java/com/infinbank/rest/model/Course.java:17-20 | a fresh registry is the empty database, in which every invariant holds |
| Registry.Registry.SaveCourse | src/main/java/com/infinbank/rest/service/CourseService.java:89-93 | exactly CourseService.Save, in place |
| Registry.Registry.UpdateCourse | src/main/java/com/infinbank/rest/service/CourseService.java:106-112 | exactly CourseService.Update, in place |
| Registry.Registry.DeleteCourse | src/main/java/com/infinbank/rest/service/CourseService.java:123-127 | exactly CourseService.DeleteById, in place |
| Registry.Registry.SaveTeacher | src/main/java/com/infinbank/rest/service/TeacherService.java:54-58 | exactly TeacherService.Save, in place |
| Registry.Registry.UpdateTeacher | src/main/java/com/infinbank/rest/service/TeacherService.java:61-67 | exactly TeacherService.Update, with the field setters applied one by one |
| Registry.Registry.DeleteTeacher | src/main/java/com/infinbank/rest/service/TeacherService.java:70-74 | exactly TeacherService.DeleteById, in place |
| Registry.Registry.AssignCourseToTeacher | src/main/java/com/infinbank/rest/service/TeacherService.java:77-90 | exactly TeacherService.AssignCourseToTeacher, in place |
| Registry.Registry.RemoveCourseFromTeacher | src/main/java/com/infinbank/rest/service/TeacherService.java:111-124 | exactly TeacherService.RemoveCourseFromTeacher, in place |
| Registry.Registry.SaveStudent | src/main/java/com/infinbank/rest/service/StudentService.java:57-61 | exactly StudentService.Save, in place |
| Registry.Registry.UpdateStudent | src/main/java/com/infinbank/rest/service/StudentService.java:64-70 | exactly StudentService.Update, with the field setters applied one by one |
| Registry.Registry.DeleteStudent | src/main/java/com/infinbank/rest/service/StudentService.java:73-77 | exactly StudentService.DeleteById, in place |
| Registry.Registry.AssignCourseToStudent | src/main/java/com/infinbank/rest/service/StudentService.java:89-103 | exactly StudentService.AssignCourseToStudent, in place |
| Registry.Registry.AssignTeacherToStudent | src/main/java/com/infinbank/rest/service/StudentService.java:117-131 | exactly StudentService.AssignTeacherToStudent, in place |
| Registry.Registry.RemoveTeacherFromStudent | src/main/java/com/infinbank/rest/service/StudentService.java:134-147 | exactly StudentService.RemoveTeacherFromStudent, in place |
| Registry.Registry.RemoveCourseFromStudent | src/main/java/com/infinbank/rest/service/StudentService.java:150-163 | exactly StudentService.RemoveCourseFromStudent, in place |

## Left out

- HTTP controllers, the exception handler and the OpenAPI configuration are not part of this model. They are boundary code: they turn booleans and exceptions into HTTP statuses.
- The MapStruct mappers are not visible. They are modelled as field-for-field copies.
- `Student.java`, `CourseEntityNotFoundException.java` and `TeacherEntityNotFoundException.java` are not part of this model.
  - The student's fields are inferred from how `StudentService` uses them.
  - The titles "Course" and "Teacher" are inferred from the class names, by analogy with the student exception.
- The JPA repositories are replaced by the store's maps. Transactions, lazy loading and flushing are left out. The JPA ownership of association sides (`mappedBy`) is also left out: the model writes each list just as the code edits it in memory.
- The `javax.validation` constraints on the DTOs are left out. The framework enforces them on requests, outside the services.
- Foreign-key checks of the database on delete are left out. A delete in the model always succeeds for a stored id.
- The reverse lists are kept between calls. A course's teachers and students and a teacher's students are `mappedBy` collections in the program: each call rebuilds them from the owning side, which is the teacher's `course_id` and the student's own lists. The model instead keeps them from call to call. So the following lemmas are facts about the lists the model carries, not about what a later call of the program reads:
  - TeacherService.StaleListingBreaksCourseQuery: in the program, the query joins through the teacher's single `course_id`, so it finds at most one course.
  - StudentService.ReenrolmentDuplicatesStudent: in the program, enrolment is one join row, so the course lists the student once.
  - TeacherService.DeleteDoesNotDetachFromCourse and StudentService.DeleteDoesNotDetachFromCourse: in the program, deleting the owning record also deletes the rows it owns.
  - TeacherService.RemoveOtherCourseBreaksStaffing, TeacherService.SaveWithCourseBreaksStaffing, StudentService.RemoveCourseFromStudentBreaksEnrolment and StudentService.RemoveTeacherFromStudentBreaksTutoring: the same applies; the inconsistency lasts only until the program rebuilds the reverse list.
- TeacherService.Save: the nested course DTO of a teacher is reduced to the course's id.
  - The course name the caller sends is not echoed back.
  - A nested course with no id, or one naming no stored course, is stored as a dangling reference. In the program, saving it fails.
- Entities.TeacherFromDto: the same reduction. The course name carried by a teacher's DTO, as returned by `findById`, `findAll` and `update` of a teacher, is not modelled.
- Concurrency and isolation are left out: every operation is one atomic step.
- Ids are unbounded integers. The model does not represent the overflow of a 32-bit `Integer` identity column.
- Null fields are left out: names and age are always present, and `null` is modelled only where the code tests for it (a teacher's course).
- The id carried by the DTO given to `save` is ignored. The store always assigns the next id.
- CourseService.FindAll: the listing order is fixed as ascending id. The source leaves the order to the database.
- TeacherService.FindAll: the same fixed order.
- StudentService.FindAll: the same fixed order.
- CourseService.FindStudentsByCourse: returns the listed student ids rather than student DTOs, so a dangling id left by a delete needs no lookup.
- CourseService.FindTeachersByCourse: returns teacher ids rather than teacher DTOs, for the same reason.
- TeacherService.FindStudentsOfTeacher: returns student ids rather than student DTOs, for the same reason.
- StudentService.FindCoursesByStudentId: returns course ids rather than course DTOs, for the same reason.
- StudentService.FindTeachersByStudentId: returns teacher ids rather than teacher DTOs, for the same reason.
