/**
 * The MyBatis mapper of repository/StudentRepository.java as an in-memory database: the
 * `students` and `students_courses` tables with auto-increment ids, and one method per SQL
 * statement. Rows are kept in insertion order, which is ascending id order.
 */
module Repository {
  import opened Wrappers
  import opened Entities
  import Seqs

  /** `WHERE deleted IS NULL OR deleted = 0`. */
  predicate SqlActive(row: Student) {
    row.deleted == None || row.deleted == Some(false)
  }

  /** The SQL filter selects exactly the students `Student.isActive` calls active. */
  lemma SqlActiveIsActive(row: Student)
    ensures SqlActive(row) <==> IsActive(row)
  {
  }

  /** The primary key of a `students` row. */
  function StudentKey(row: Student): int { row.id }

  /** The primary key of a `students_courses` row. */
  function CourseKey(row: StudentCourse): int { row.id }

  /** The key column of a table, in table order. */
  function Ids<T>(rows: seq<T>, key: T -> int): (ids: seq<int>)
    ensures |ids| == |rows| && forall i | 0 <= i < |rows| :: ids[i] == key(rows[i])
  {
    seq(|rows|, i requires 0 <= i < |rows| => key(rows[i]))
  }

  predicate Increasing(ids: seq<int>) {
    forall i, j | 0 <= i < j < |ids| :: ids[i] < ids[j]
  }

  /** How many entries of `ids` equal `id`: the affected-row count of a statement keyed by id. */
  function Count(ids: seq<int>, id: int): nat {
    if ids == [] then 0 else Count(ids[..|ids| - 1], id) + (if ids[|ids| - 1] == id then 1 else 0)
  }

  /** A primary key matches at most one row. */
  lemma {:induction false} CountUnique(ids: seq<int>, id: int)
    requires Increasing(ids)
    ensures Count(ids, id) == if id in ids then 1 else 0
  {
    if ids != [] {
      var init := ids[..|ids| - 1];
      CountUnique(init, id);
      assert ids == init + [ids[|ids| - 1]];
      if ids[|ids| - 1] == id {
        assert forall j | 0 <= j < |init| :: init[j] < id;
      }
    }
  }

  /** Ids in `[1, next)`, strictly ascending in table order. */
  predicate KeysOk(ids: seq<int>, next: int) {
    Increasing(ids) && forall i | 0 <= i < |ids| :: 1 <= ids[i] < next
  }

  /** A generated key extends the key column. */
  lemma KeysOkAppend(ids: seq<int>, next: int)
    requires KeysOk(ids, next) && next >= 1
    ensures KeysOk(ids + [next], next + 1)
  {
    var ids' := ids + [next];
    forall i, j | 0 <= i < j < |ids'| ensures ids'[i] < ids'[j] {
      if j < |ids| {
        assert ids'[i] == ids[i] && ids'[j] == ids[j];
      } else {
        assert ids'[i] == ids[i];
      }
    }
  }

  /** The row of `students` with that id, as `WHERE id = #{id}` finds it. */
  function FindStudent(rows: seq<Student>, id: int): (r: Option<Student>)
    ensures r.Some? ==> r.value in rows && r.value.id == id
    ensures r.None? ==> forall row | row in rows :: row.id != id
  {
    if rows == [] then None else if rows[0].id == id then Some(rows[0]) else FindStudent(rows[1..], id)
  }

  lemma {:induction false} FindStudentAppend(rows: seq<Student>, row: Student)
    requires forall r | r in rows :: r.id != row.id
    ensures FindStudent(rows + [row], row.id) == Some(row)
  {
    if rows == [] {
      assert rows + [row] == [row];
    } else {
      assert rows[0] in rows;
      assert (rows + [row])[1..] == rows[1..] + [row];
      assert forall r | r in rows[1..] :: r in rows;
      FindStudentAppend(rows[1..], row);
    }
  }

  /** The listing of `getActiveStudents`. */
  function ActiveStudents(rows: seq<Student>): seq<Student> {
    Seqs.Filter(SqlActive, rows)
  }

  lemma ActiveStudentsSnoc(rows: seq<Student>, row: Student)
    ensures ActiveStudents(rows + [row]) == ActiveStudents(rows) + if SqlActive(row) then [row] else []
  {
    Seqs.FilterAppend(SqlActive, rows, [row]);
    assert [row][1..] == [];
  }

  /** The active listing keeps the id order of the table. */
  lemma ActiveStudentsIncreasing(rows: seq<Student>)
    requires Increasing(Ids(rows, StudentKey))
    ensures Increasing(Ids(ActiveStudents(rows), StudentKey))
  {
    var r := ActiveStudents(rows);
    var m := Seqs.MatchIndices(SqlActive, rows);
    Seqs.FilterKeepsOrder(SqlActive, rows);
    forall k, l | 0 <= k < l < |r| ensures Ids(r, StudentKey)[k] < Ids(r, StudentKey)[l] {
      assert m[k] < m[l];
      assert Ids(rows, StudentKey)[m[k]] < Ids(rows, StudentKey)[m[l]];
    }
  }

  /** The eight columns `updateStudent` sets; `id` and `deleted` keep their values. */
  function SetStudentColumns(row: Student, s: Student): (r: Student)
    ensures r.id == row.id && r.deleted == row.deleted
  {
    row.(name := s.name, kanaName := s.kanaName, nickname := s.nickname, email := s.email,
         area := s.area, age := s.age, sex := s.sex, remark := s.remark)
  }

  function StudentsUpdated(rows: seq<Student>, s: Student): (r: seq<Student>)
    ensures Ids(r, StudentKey) == Ids(rows, StudentKey)
  {
    seq(|rows|, i requires 0 <= i < |rows| => if rows[i].id == s.id then SetStudentColumns(rows[i], s) else rows[i])
  }

  /** The three columns `updateCourse` sets, keyed by the course id. */
  function SetCourseColumns(row: StudentCourse, c: StudentCourse): (r: StudentCourse)
    ensures r.id == row.id && r.studentId == row.studentId && r.enrollmentStatus == row.enrollmentStatus
  {
    row.(courseName := c.courseName, courseStartAt := c.courseStartAt, courseEndAt := c.courseEndAt)
  }

  function CoursesUpdated(rows: seq<StudentCourse>, c: StudentCourse): (r: seq<StudentCourse>)
    ensures Ids(r, CourseKey) == Ids(rows, CourseKey)
  {
    seq(|rows|, i requires 0 <= i < |rows| => if rows[i].id == c.id then SetCourseColumns(rows[i], c) else rows[i])
  }

  /** `SET deleted = 1 WHERE id = #{id}`. */
  function SoftDeleted(rows: seq<Student>, id: int): (r: seq<Student>)
    ensures Ids(r, StudentKey) == Ids(rows, StudentKey)
  {
    seq(|rows|, i requires 0 <= i < |rows| => if rows[i].id == id then rows[i].(deleted := Some(true)) else rows[i])
  }

  lemma CoursesOfSnoc(cs: seq<StudentCourse>, c: StudentCourse, k: int)
    ensures CoursesOf(cs + [c], k) == CoursesOf(cs, k) + (if c.studentId == k then [c] else [])
  {
    CoursesOfAppend(cs, [c], k);
    assert [c][1..] == [];
  }

  /** Selecting one student's courses keeps the rows in ascending id order. */
  lemma {:induction false} CoursesOfIncreasing(cs: seq<StudentCourse>, k: int)
    requires Increasing(Ids(cs, CourseKey))
    ensures Increasing(Ids(CoursesOf(cs, k), CourseKey))
  {
    if cs != [] {
      var n := |cs| - 1;
      var init := cs[..n];
      assert Increasing(Ids(init, CourseKey)) by {
        forall i, j | 0 <= i < j < |init| ensures init[i].id < init[j].id {
          assert init[i] == cs[i] && init[j] == cs[j];
        }
      }
      CoursesOfIncreasing(init, k);
      CoursesOfSnoc(init, cs[n], k);
      assert cs == init + [cs[n]];
      if cs[n].studentId == k {
        var before := CoursesOf(init, k);
        forall x | x in before ensures x.id < cs[n].id {
          var m :| 0 <= m < n && init[m] == x;
          assert Ids(cs, CourseKey)[m] < Ids(cs, CourseKey)[n];
        }
        AppendIncreasing(before, cs[n]);
      }
    }
  }

  lemma AppendIncreasing(rows: seq<StudentCourse>, c: StudentCourse)
    requires Increasing(Ids(rows, CourseKey)) && forall x | x in rows :: x.id < c.id
    ensures Increasing(Ids(rows + [c], CourseKey))
  {
    var r := rows + [c];
    forall i, j | 0 <= i < j < |r| ensures r[i].id < r[j].id {
      assert r[i] == rows[i];
      if j < |rows| {
        assert r[j] == rows[j];
      } else {
        assert rows[i] in rows;
      }
    }
  }

  /** `ORDER BY student_id, id`. */
  predicate CourseBefore(a: StudentCourse, b: StudentCourse) {
    a.studentId < b.studentId || (a.studentId == b.studentId && a.id < b.id)
  }

  predicate SortedByStudent(s: seq<StudentCourse>) {
    forall i, j | 0 <= i < j < |s| :: CourseBefore(s[i], s[j])
  }

  lemma PrependSorted(x: StudentCourse, t: seq<StudentCourse>)
    requires SortedByStudent(t) && forall y | y in t :: CourseBefore(x, y)
    ensures SortedByStudent([x] + t)
  {
    forall i, j | 0 <= i < j < |[x] + t| ensures CourseBefore(([x] + t)[i], ([x] + t)[j]) {
      if i > 0 {
        assert ([x] + t)[i] == t[i - 1] && ([x] + t)[j] == t[j - 1];
      } else {
        assert ([x] + t)[j] == t[j - 1] && t[j - 1] in t;
      }
    }
  }

  /** Insertion of one row into a listing sorted by (student_id, id). */
  function InsertSorted(s: seq<StudentCourse>, c: StudentCourse): (r: seq<StudentCourse>)
    requires SortedByStudent(s) && forall x | x in s :: x.id != c.id
    ensures SortedByStudent(r)
    ensures multiset(r) == multiset(s) + multiset{c}
  {
    if s == [] then [c]
    else if CourseBefore(c, s[0]) then
      HeadBeforeAll(c, s);
      PrependSorted(c, s);
      [c] + s
    else
      var tail := s[1..];
      TailSorted(s, c);
      var t := InsertSorted(tail, c);
      HeadBeforeInserted(s, c, t);
      PrependSorted(s[0], t);
      assert s == [s[0]] + tail;
      [s[0]] + t
  }

  /** A row before the head of a sorted listing is before all of it. */
  lemma HeadBeforeAll(c: StudentCourse, s: seq<StudentCourse>)
    requires SortedByStudent(s) && s != [] && CourseBefore(c, s[0])
    ensures forall y | y in s :: CourseBefore(c, y)
  {
    forall y | y in s ensures CourseBefore(c, y) {
      var j :| 0 <= j < |s| && s[j] == y;
      if j > 0 {
        assert CourseBefore(s[0], s[j]);
      }
    }
  }

  lemma TailSorted(s: seq<StudentCourse>, c: StudentCourse)
    requires SortedByStudent(s) && s != [] && forall x | x in s :: x.id != c.id
    ensures SortedByStudent(s[1..]) && forall x | x in s[1..] :: x.id != c.id
  {
    var tail := s[1..];
    forall i, j | 0 <= i < j < |tail| ensures CourseBefore(tail[i], tail[j]) {
      assert tail[i] == s[i + 1] && tail[j] == s[j + 1];
    }
    forall x | x in tail ensures x.id != c.id {
      assert x in s;
    }
  }

  /** The head of a sorted listing stays before the rest once a later row is inserted into the rest. */
  lemma HeadBeforeInserted(s: seq<StudentCourse>, c: StudentCourse, t: seq<StudentCourse>)
    requires SortedByStudent(s) && s != [] && !CourseBefore(c, s[0]) && c.id != s[0].id
    requires multiset(t) == multiset(s[1..]) + multiset{c}
    ensures forall y | y in t :: CourseBefore(s[0], y)
  {
    var tail := s[1..];
    forall y | y in t ensures CourseBefore(s[0], y) {
      assert y in multiset(t);
      if y != c {
        assert y in multiset(tail);
        var j :| 0 <= j < |tail| && tail[j] == y;
        assert s[j + 1] == y;
      }
    }
  }

  class StudentStore {
    var students: seq<Student>
    var courses: seq<StudentCourse>
    var nextStudentId: int
    var nextCourseId: int

    /**
     * Both primary keys are auto-increment: ascending in table order and below the next key. The
     * course rows carry no enrollment status: the shown statements neither write nor read one.
     */
    ghost predicate Valid()
      reads this
    {
      && 1 <= nextStudentId && 1 <= nextCourseId
      && KeysOk(Ids(students, StudentKey), nextStudentId)
      && KeysOk(Ids(courses, CourseKey), nextCourseId)
      && forall i | 0 <= i < |courses| :: courses[i].enrollmentStatus == None
    }

    constructor()
      ensures Valid() && students == [] && courses == []
    {
      students := [];
      courses := [];
      nextStudentId := 1;
      nextCourseId := 1;
    }

    /** `getActiveStudents`: the rows with `deleted` NULL or 0, ordered by id. */
    method GetActiveStudents() returns (r: seq<Student>)
      requires Valid()
      ensures r == ActiveStudents(students)
      ensures Increasing(Ids(r, StudentKey))
    {
      r := [];
      for i := 0 to |students|
        invariant r == ActiveStudents(students[..i])
      {
        ActiveStudentsSnoc(students[..i], students[i]);
        assert students[..i + 1] == students[..i] + [students[i]];
        if SqlActive(students[i]) {
          r := r + [students[i]];
        }
      }
      assert students[..|students|] == students;
      ActiveStudentsIncreasing(students);
    }

    /** `getStudentById`: the row with that id, deleted or not, or `null`. */
    method GetStudentById(id: int) returns (r: Option<Student>)
      ensures r == FindStudent(students, id)
    {
      var i := 0;
      while i < |students|
        invariant 0 <= i <= |students|
        invariant FindStudent(students, id) == FindStudent(students[i..], id)
      {
        if students[i].id == id {
          return Some(students[i]);
        }
        assert students[i..][1..] == students[i + 1..];
        i := i + 1;
      }
      return None;
    }

    /** `getAllCourses`: every course row, ordered by (student_id, id). */
    method GetAllCourses() returns (r: seq<StudentCourse>)
      requires Valid()
      ensures SortedByStudent(r)
      ensures multiset(r) == multiset(courses)
    {
      r := [];
      for i := 0 to |courses|
        invariant SortedByStudent(r)
        invariant multiset(r) == multiset(courses[..i])
      {
        forall x | x in r ensures x.id != courses[i].id {
          assert x in multiset(courses[..i]);
          var j :| 0 <= j < i && courses[j] == x;
          assert Ids(courses, CourseKey)[j] < Ids(courses, CourseKey)[i];
        }
        r := InsertSorted(r, courses[i]);
        assert courses[..i + 1] == courses[..i] + [courses[i]];
      }
      assert courses[..|courses|] == courses;
    }

    /** `getCoursesByStudentId`: that student's courses ordered by course id; empty when there are none. */
    method GetCoursesByStudentId(studentId: int) returns (r: seq<StudentCourse>)
      requires Valid()
      ensures r == CoursesOf(courses, studentId)
      ensures Increasing(Ids(r, CourseKey))
    {
      r := [];
      for i := 0 to |courses|
        invariant r == CoursesOf(courses[..i], studentId)
      {
        CoursesOfSnoc(courses[..i], courses[i], studentId);
        assert courses[..i + 1] == courses[..i] + [courses[i]];
        if courses[i].studentId == studentId {
          r := r + [courses[i]];
        }
      }
      assert courses[..|courses|] == courses;
      CoursesOfIncreasing(courses, studentId);
    }

    /**
     * `saveStudent`: inserts one row with a fresh generated id and `deleted` at its default NULL,
     * returns 1 and writes the id back into the argument (here: `saved`).
     */
    method SaveStudent(student: Student) returns (count: int, saved: Student)
      requires Valid()
      modifies this
      ensures Valid()
      ensures count == 1
      ensures saved == student.(id := old(nextStudentId))
      ensures forall row | row in old(students) :: row.id != saved.id
      ensures students == old(students) + [saved.(deleted := None)]
      ensures courses == old(courses)
    {
      saved := student.(id := nextStudentId);
      var row := saved.(deleted := None);
      students := students + [row];
      nextStudentId := nextStudentId + 1;
      count := 1;
      assert Ids(students, StudentKey) == Ids(old(students), StudentKey) + [row.id];
      KeysOkAppend(Ids(old(students), StudentKey), row.id);
    }

    /** `saveCourse`: inserts one row for the given student, returns 1; the argument is not written back. */
    method SaveCourse(course: StudentCourse) returns (count: int)
      requires Valid()
      modifies this
      ensures Valid()
      ensures count == 1
      ensures courses == old(courses) + [course.(id := old(nextCourseId), enrollmentStatus := None)]
      ensures students == old(students)
    {
      var row := course.(id := nextCourseId, enrollmentStatus := None);
      courses := courses + [row];
      nextCourseId := nextCourseId + 1;
      count := 1;
      assert Ids(courses, CourseKey) == Ids(old(courses), CourseKey) + [row.id];
      KeysOkAppend(Ids(old(courses), CourseKey), row.id);
    }

    /** `updateStudent`: overwrite the eight columns of the row with that id; 1, or 0 for no such row. */
    method UpdateStudent(student: Student) returns (count: int)
      requires Valid()
      modifies this
      ensures Valid()
      ensures students == StudentsUpdated(old(students), student)
      ensures count == if student.id in Ids(old(students), StudentKey) then 1 else 0
      ensures courses == old(courses)
    {
      var rows := students;
      var ids := Ids(rows, StudentKey);
      count := 0;
      for i := 0 to |students|
        invariant |students| == |rows|
        invariant forall j | 0 <= j < i :: students[j] == StudentsUpdated(rows, student)[j]
        invariant forall j | i <= j < |rows| :: students[j] == rows[j]
        invariant count == Count(ids[..i], student.id)
        invariant courses == old(courses)
        invariant nextStudentId == old(nextStudentId) && nextCourseId == old(nextCourseId)
      {
        assert ids[..i + 1][..i] == ids[..i];
        if students[i].id == student.id {
          students := students[i := SetStudentColumns(students[i], student)];
          count := count + 1;
        }
      }
      assert students == StudentsUpdated(rows, student);
      assert ids[..|ids|] == ids;
      CountUnique(ids, student.id);
    }

    /** `updateCourse`: keyed by the course id only, never by the student id. */
    method UpdateCourse(course: StudentCourse) returns (count: int)
      requires Valid()
      modifies this
      ensures Valid()
      ensures courses == CoursesUpdated(old(courses), course)
      ensures count == if course.id in Ids(old(courses), CourseKey) then 1 else 0
      ensures students == old(students)
    {
      var rows := courses;
      var ids := Ids(rows, CourseKey);
      count := 0;
      for i := 0 to |courses|
        invariant |courses| == |rows|
        invariant forall j | 0 <= j < i :: courses[j] == CoursesUpdated(rows, course)[j]
        invariant forall j | i <= j < |rows| :: courses[j] == rows[j]
        invariant count == Count(ids[..i], course.id)
        invariant students == old(students)
        invariant nextStudentId == old(nextStudentId) && nextCourseId == old(nextCourseId)
        invariant forall j | 0 <= j < |courses| :: courses[j].enrollmentStatus == None
      {
        assert ids[..i + 1][..i] == ids[..i];
        if courses[i].id == course.id {
          courses := courses[i := SetCourseColumns(courses[i], course)];
          count := count + 1;
        }
      }
      assert courses == CoursesUpdated(rows, course);
      assert ids[..|ids|] == ids;
      CountUnique(ids, course.id);
    }

    /** `deleteStudent`: soft delete; 1 for an existing row (deleted before or not), 0 otherwise. */
    method DeleteStudent(id: int) returns (count: int)
      requires Valid()
      modifies this
      ensures Valid()
      ensures students == SoftDeleted(old(students), id)
      ensures count == if id in Ids(old(students), StudentKey) then 1 else 0
      ensures courses == old(courses)
    {
      var rows := students;
      var ids := Ids(rows, StudentKey);
      count := 0;
      for i := 0 to |students|
        invariant |students| == |rows|
        invariant forall j | 0 <= j < i :: students[j] == SoftDeleted(rows, id)[j]
        invariant forall j | i <= j < |rows| :: students[j] == rows[j]
        invariant count == Count(ids[..i], id)
        invariant courses == old(courses)
        invariant nextStudentId == old(nextStudentId) && nextCourseId == old(nextCourseId)
      {
        assert ids[..i + 1][..i] == ids[..i];
        if students[i].id == id {
          students := students[i := students[i].(deleted := Some(true))];
          count := count + 1;
        }
      }
      assert students == SoftDeleted(rows, id);
      assert ids[..|ids|] == ids;
      CountUnique(ids, id);
    }
  }

  /** A saved student is found by its generated id, with the saved fields and `deleted` NULL. */
  lemma SavedStudentIsFound(rows: seq<Student>, student: Student, next: int)
    requires KeysOk(Ids(rows, StudentKey), next)
    ensures FindStudent(rows + [student.(id := next, deleted := None)], next) == Some(student.(id := next, deleted := None))
  {
    forall r | r in rows ensures r.id != next {
      var i :| 0 <= i < |rows| && rows[i] == r;
      assert Ids(rows, StudentKey)[i] < next;
    }
    FindStudentAppend(rows, student.(id := next, deleted := None));
  }

  /**
   * Soft delete is idempotent, keeps every row, removes exactly that id from the active listing,
   * and leaves the other rows' activity as it was.
   */
  lemma SoftDeleteSpec(rows: seq<Student>, id: int)
    ensures SoftDeleted(SoftDeleted(rows, id), id) == SoftDeleted(rows, id)
    ensures forall r | r in ActiveStudents(SoftDeleted(rows, id)) :: r.id != id && r in rows
    ensures forall r | r in rows && SqlActive(r) && r.id != id :: r in ActiveStudents(SoftDeleted(rows, id))
  {
    var d := SoftDeleted(rows, id);
    forall r | r in ActiveStudents(d) ensures r.id != id && r in rows {
      var i :| 0 <= i < |d| && d[i] == r;
    }
    forall r | r in rows && SqlActive(r) && r.id != id ensures r in d {
      var i :| 0 <= i < |rows| && rows[i] == r;
      assert d[i] == r;
    }
  }

  /** A second delete of the same id reports one affected row again, as the first did. */
  lemma SoftDeleteCountStable(rows: seq<Student>, id: int)
    ensures (id in Ids(SoftDeleted(rows, id), StudentKey)) == (id in Ids(rows, StudentKey))
  {
  }

  /** `updateStudent` changes neither ids nor `deleted`, and rows with another id not at all. */
  lemma UpdateStudentKeeps(rows: seq<Student>, s: Student)
    ensures |StudentsUpdated(rows, s)| == |rows|
    ensures forall i | 0 <= i < |rows| ::
      StudentsUpdated(rows, s)[i].id == rows[i].id && StudentsUpdated(rows, s)[i].deleted == rows[i].deleted
    ensures forall i | 0 <= i < |rows| && rows[i].id != s.id :: StudentsUpdated(rows, s)[i] == rows[i]
    ensures forall i | 0 <= i < |rows| && rows[i].id == s.id ::
      StudentsUpdated(rows, s)[i] == s.(deleted := rows[i].deleted)
  {
  }

  /** `updateCourse` leaves other courses of the same student unchanged. */
  lemma UpdateCourseKeyedById(rows: seq<StudentCourse>, c: StudentCourse)
    ensures forall i | 0 <= i < |rows| && rows[i].id != c.id :: CoursesUpdated(rows, c)[i] == rows[i]
    ensures forall i | 0 <= i < |rows| && rows[i].id == c.id ::
      CoursesUpdated(rows, c)[i] == c.(id := rows[i].id, studentId := rows[i].studentId, enrollmentStatus := rows[i].enrollmentStatus)
  {
  }
}
