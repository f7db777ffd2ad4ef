/** The registry's state as a value: one table per entity, keyed by id, and
    one identity counter per table (each table's id column is generated by
    the database, starting at 1). The three services are functions over this
    value; the Registry class performs the same operations in place. */
module Store {
  import opened Wrappers
  import opened Errors
  import opened Entities
  import opened Lists

  datatype Store = Store(
    courses: map<CourseId, Course>,
    teachers: map<TeacherId, Teacher>,
    students: map<StudentId, Student>,
    nextCourseId: int,
    nextTeacherId: int,
    nextStudentId: int)
  {
    /** Every stored id was handed out by its table's counter, so the next
        value of a counter is not in use. */
    ghost predicate Valid()
    {
      && (forall id :: id in courses ==> id < nextCourseId)
      && (forall id :: id in teachers ==> id < nextTeacherId)
      && (forall id :: id in students ==> id < nextStudentId)
    }
  }

  /** What an operation that may write leaves behind: the new state and what
      the call returned or threw. */
  datatype Outcome<T> = Outcome(store: Store, result: Result<T, Error>)

  /** An empty database, before any insert. */
  const Empty: Store := Store(map[], map[], map[], 1, 1, 1)

  predicate IsLeast(m: int, ks: set<int>)
  {
    m in ks && forall k :: k in ks ==> m <= k
  }

  lemma NonEmptyHasMember(ks: set<int>)
    requires ks != {}
    ensures exists k :: k in ks
  {
    if forall k :: k !in ks {
      assert false;
    }
  }

  lemma {:induction false} LeastExists(ks: set<int>)
    requires ks != {}
    ensures exists m :: IsLeast(m, ks)
    decreases |ks|
  {
    NonEmptyHasMember(ks);
    var k :| k in ks;
    if ks != {k} {
      LeastExists(ks - {k});
      var m :| IsLeast(m, ks - {k});
      var least := if k < m then k else m;
      forall j | j in ks
        ensures least <= j
      {
        if j != k {
          assert j in ks - {k};
        }
      }
      assert IsLeast(least, ks);
    } else {
      assert IsLeast(k, ks);
    }
  }

  /** The ids of a table in ascending order, each exactly once: the order in
      which the findAll queries list rows (SQL leaves it to the database; this
      model fixes ascending id). */
  function Ascending(ks: set<int>): (r: seq<int>)
    ensures |r| == |ks|
    ensures forall k :: k in r <==> k in ks
    ensures forall i, j :: 0 <= i < j < |r| ==> r[i] < r[j]
    decreases |ks|
  {
    if ks == {} then []
    else
      LeastExists(ks);
      var m :| IsLeast(m, ks);
      [m] + Ascending(ks - {m})
  }

  /** The courses whose teacher list holds the given teacher id: the rows of
      "SELECT c FROM Course c JOIN c.teachers t WHERE t.id = :teacherId". */
  function CoursesListing(st: Store, teacherId: TeacherId): set<CourseId>
  {
    set c | c in st.courses && teacherId in st.courses[c].teachers
  }

  lemma SingletonHasElement(s: set<CourseId>)
    requires |s| == 1
    ensures exists c :: s == {c}
  {
    NonEmptyHasMember(s);
    var c :| c in s;
    assert |s - {c}| == 0;
    assert s == {c};
  }

  /** CourseRepository.findByTeacherId: the one course listing the teacher,
      none, or the single-result query's failure when several do. */
  function FindByTeacherId(st: Store, teacherId: TeacherId): (r: Result<Option<CourseId>, Error>)
    ensures r == Ok(None) <==> forall c :: c in st.courses ==> teacherId !in st.courses[c].teachers
    ensures r.Ok? && r.value.Some? ==>
      && r.value.value in st.courses && teacherId in st.courses[r.value.value].teachers
      && forall c :: c in st.courses && teacherId in st.courses[c].teachers ==> c == r.value.value
    ensures r.Err? ==> r.error.NonUniqueResult? && r.error.count >= 2
  {
    var listing := CoursesListing(st, teacherId);
    if |listing| == 0 then
      assert forall c :: c in st.courses && teacherId in st.courses[c].teachers ==> c in listing;
      Ok(None)
    else if |listing| == 1 then
      SingletonHasElement(listing);
      var c :| listing == {c};
      assert forall c' :: c' in st.courses && teacherId in st.courses[c'].teachers ==> c' in listing;
      assert c in listing;
      Ok(Some(c))
    else
      NonEmptyHasMember(listing);
      var c :| c in listing;
      assert c in st.courses && teacherId in st.courses[c].teachers;
      Err(NonUniqueResult(|listing|))
  }

  /** Student and course agree: a student lists a course exactly when that
      course lists the student, and both exist. */
  ghost predicate EnrolmentConsistent(st: Store)
  {
    forall sid, cid ::
      (sid in st.students && cid in st.students[sid].courses) <==>
      (cid in st.courses && sid in st.courses[cid].students)
  }

  /** Student and teacher agree in the same way. */
  ghost predicate TutoringConsistent(st: Store)
  {
    forall sid, tid ::
      (sid in st.students && tid in st.students[sid].teachers) <==>
      (tid in st.teachers && sid in st.teachers[tid].students)
  }

  /** A course's teacher list holds exactly the existing teachers whose course
      reference is that course, and every course reference resolves. */
  ghost predicate StaffingConsistent(st: Store)
  {
    && (forall cid, tid :: cid in st.courses && tid in st.courses[cid].teachers ==>
          tid in st.teachers && st.teachers[tid].course == Some(cid))
    && (forall tid :: tid in st.teachers && st.teachers[tid].course.Some? ==>
          st.teachers[tid].course.value in st.courses &&
          tid in st.courses[st.teachers[tid].course.value].teachers)
  }

  /** No relationship list holds an id twice. */
  ghost predicate DuplicateFree(st: Store)
  {
    && (forall cid :: cid in st.courses ==>
          Distinct(st.courses[cid].teachers) && Distinct(st.courses[cid].students))
    && (forall tid :: tid in st.teachers ==> Distinct(st.teachers[tid].students))
    && (forall sid :: sid in st.students ==>
          Distinct(st.students[sid].courses) && Distinct(st.students[sid].teachers))
  }

  /** The invariants of the relationship model, all at once. */
  ghost predicate Consistent(st: Store)
  {
    EnrolmentConsistent(st) && TutoringConsistent(st) && StaffingConsistent(st) && DuplicateFree(st)
  }

  lemma EmptyIsConsistent()
    ensures Empty.Valid() && Consistent(Empty)
  {
  }
}
