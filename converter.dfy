/**
 * The converter of the REST controller (controller/converter/StudentConverter.java): the join of
 * students with their courses, and the field copies between StudentForm and the two entities.
 */
module Converter {
  import opened Wrappers
  import opened Entities
  import opened Forms

  /** A student with all of their courses (the detail this converter builds). */
  datatype StudentDetail = StudentDetail(student: Student, studentCourse: seq<StudentCourse>)

  /** The accumulator step of `groupingBy`: append `c` to the list of its student id. */
  function AddCourse(g: map<int, seq<StudentCourse>>, c: StudentCourse): map<int, seq<StudentCourse>> {
    g[c.studentId := (if c.studentId in g then g[c.studentId] else []) + [c]]
  }

  /** The two facts `GroupByStudentId` promises about its result `g` for the course list `cs`. */
  predicate GroupsOf(g: map<int, seq<StudentCourse>>, cs: seq<StudentCourse>) {
    && (forall k | k in g :: g[k] == CoursesOf(cs, k) && g[k] != [])
    && (forall c | c in cs :: c.studentId in g)
  }

  lemma AddCourseStep(g: map<int, seq<StudentCourse>>, init: seq<StudentCourse>, c: StudentCourse)
    requires GroupsOf(g, init)
    ensures GroupsOf(AddCourse(g, c), init + [c])
  {
    var g' := AddCourse(g, c);
    forall k | k in g' ensures g'[k] == CoursesOf(init + [c], k) {
      CoursesOfAppend(init, [c], k);
      assert CoursesOf([c], k) == if c.studentId == k then [c] else [];
      if k == c.studentId && k !in g {
        CoursesOfAbsent(init, k);
      }
    }
  }

  /**
   * `Collectors.groupingBy(StudentCourse::getStudentId)`: one pass that appends each course to the
   * list of its student id, creating the list on first use. Each list holds exactly that student's
   * courses in their order, no list is empty, and every course's student id is a key.
   */
  function GroupByStudentId(cs: seq<StudentCourse>): (g: map<int, seq<StudentCourse>>)
    ensures GroupsOf(g, cs)
  {
    if cs == [] then map[]
    else
      var init, c := cs[..|cs| - 1], cs[|cs| - 1];
      assert cs == init + [c];
      AddCourseStep(GroupByStudentId(init), init, c);
      AddCourse(GroupByStudentId(init), c)
  }

  /** `courseMap.get(id)` gives the student's courses, or `null` for a student without any. */
  lemma GroupLookup(cs: seq<StudentCourse>, k: int)
    ensures k in GroupByStudentId(cs) <==> CoursesOf(cs, k) != []
    ensures k in GroupByStudentId(cs) ==> GroupByStudentId(cs)[k] == CoursesOf(cs, k)
  {
    if CoursesOf(cs, k) != [] {
      assert CoursesOf(cs, k)[0] in CoursesOf(cs, k);
    }
  }

  /** `createStudentDetail`: a `null` course list is replaced by an empty one. */
  function CreateStudentDetail(student: Student, courses: Option<seq<StudentCourse>>): (d: StudentDetail)
    ensures d.student == student
    ensures courses.None? ==> d.studentCourse == []
    ensures courses.Some? ==> d.studentCourse == courses.value
  {
    StudentDetail(student, courses.GetOr([]))
  }

  function Lookup(m: map<int, seq<StudentCourse>>, k: int): Option<seq<StudentCourse>> {
    if k in m then Some(m[k]) else None
  }

  /**
   * `toDetails`: no students gives the empty list; otherwise one detail per student, in input
   * order, holding that student and every course with its id, in course-list order. A `null` course
   * list counts as an empty one.
   */
  function ToDetails(students: Option<seq<Student>>, courses: Option<seq<StudentCourse>>): (r: seq<StudentDetail>)
    ensures students.None? ==> r == []
    ensures students.Some? ==> |r| == |students.value|
    ensures students.Some? ==> forall i | 0 <= i < |r| ::
      r[i].student == students.value[i] && r[i].studentCourse == CoursesOf(courses.GetOr([]), students.value[i].id)
  {
    match students
    case None => []
    case Some(ss) =>
      var courseMap := if courses.Some? then GroupByStudentId(courses.value) else map[];
      assert forall k :: k !in courseMap ==> CoursesOf(courses.GetOr([]), k) == [] by {
        forall k ensures k !in courseMap ==> CoursesOf(courses.GetOr([]), k) == [] {
          GroupLookup(courses.GetOr([]), k);
        }
      }
      seq(|ss|, i requires 0 <= i < |ss| => CreateStudentDetail(ss[i], Lookup(courseMap, ss[i].id)))
  }

  /** A `null` course list behaves as an empty one: every student gets an empty, non-null list. */
  lemma ToDetailsWithoutCourses(students: seq<Student>)
    ensures ToDetails(Some(students), None) == ToDetails(Some(students), Some([]))
    ensures forall d | d in ToDetails(Some(students), None) :: d.studentCourse == []
  {
  }

  /**
   * Every course lands in the detail of each listed student with its id, and a course whose
   * student is not listed lands in no detail.
   */
  lemma ToDetailsPlacesEachCourse(students: seq<Student>, courses: seq<StudentCourse>, c: StudentCourse)
    requires c in courses
    ensures forall i | 0 <= i < |students| ::
      c in ToDetails(Some(students), Some(courses))[i].studentCourse <==> c.studentId == students[i].id
    ensures (forall s | s in students :: s.id != c.studentId) ==>
      forall d | d in ToDetails(Some(students), Some(courses)) :: c !in d.studentCourse
  {
    var r := ToDetails(Some(students), Some(courses));
    forall d | d in r ensures c in d.studentCourse ==> d.student in students && c.studentId == d.student.id {
      var i :| 0 <= i < |r| && r[i] == d;
    }
  }

  /** A conversion failure: unboxing a `null` Integer. */
  datatype ConversionError = NullPointerException

  /** `toForm(student, course)`; a `null` course leaves the course fields of the form unset. */
  function ToForm(student: Student, course: Option<StudentCourse>): (f: StudentForm)
    ensures f.id == Some(student.id) && f.age == Some(student.age)
    ensures f.name == student.name && f.kanaName == student.kanaName && f.nickname == student.nickname
    ensures f.email == student.email && f.area == student.area && f.sex == student.sex && f.remark == student.remark
    ensures course.None? ==> f.courseId == None && f.courseStartAt == f.courseEndAt == None
    ensures course.None? ==> f.courseName == f.enrollmentStatus == None
    ensures course.Some? ==> f.courseId == Some(course.value.id) && f.courseName == course.value.courseName
    ensures course.Some? ==> f.courseStartAt == course.value.courseStartAt && f.courseEndAt == course.value.courseEndAt
    ensures course.Some? ==>
      f.enrollmentStatus == (if course.value.enrollmentStatus.Some? then course.value.enrollmentStatus.value.status else None)
  {
    var f := EmptyForm().(
      id := Some(student.id), name := student.name, kanaName := student.kanaName,
      nickname := student.nickname, email := student.email, area := student.area,
      age := Some(student.age), sex := student.sex, remark := student.remark);
    match course
    case None => f
    case Some(c) =>
      var f' := f.(courseId := Some(c.id), courseName := c.courseName,
                   courseStartAt := c.courseStartAt, courseEndAt := c.courseEndAt);
      match c.enrollmentStatus
      case None => f'
      case Some(status) => f'.(enrollmentStatus := status.status)
  }

  /**
   * `toStudent(form)`: `setAge(form.getAge())` unboxes the age, so a form without one fails. The id
   * is copied only when present, and `deleted` is never set.
   */
  function ToStudent(form: StudentForm): (r: Result<Student, ConversionError>)
    ensures r.Failure? <==> form.age.None?
    ensures r.Success? ==> r.value.deleted == None && IsActive(r.value)
    ensures r.Success? && form.id.None? ==> r.value.id == 0
    ensures r.Success? && form.id.Some? ==> r.value.id == form.id.value
    ensures r.Success? ==> r.value.age == form.age.value
    ensures r.Success? ==> r.value.name == form.name && r.value.kanaName == form.kanaName && r.value.nickname == form.nickname
    ensures r.Success? ==> r.value.email == form.email && r.value.area == form.area && r.value.sex == form.sex
    ensures r.Success? ==> r.value.remark == form.remark
  {
    var s := NewStudent();
    var s := if form.id.Some? then s.(id := form.id.value) else s;
    match form.age
    case None => Failure(NullPointerException)
    case Some(age) =>
      Success(s.(name := form.name, kanaName := form.kanaName, nickname := form.nickname,
                 email := form.email, area := form.area, age := age, sex := form.sex,
                 remark := form.remark))
  }

  /**
   * `toCourse(form)`: the course id only when present, the status wrapped only when present, and the
   * student id never set.
   */
  function ToCourse(form: StudentForm): (c: StudentCourse)
    ensures c.studentId == 0
    ensures form.courseId.None? ==> c.id == 0
    ensures form.courseId.Some? ==> c.id == form.courseId.value
    ensures c.courseName == form.courseName && c.courseStartAt == form.courseStartAt && c.courseEndAt == form.courseEndAt
    ensures c.enrollmentStatus.Some? <==> form.enrollmentStatus.Some?
    ensures c.enrollmentStatus.Some? ==> c.enrollmentStatus.value.status == form.enrollmentStatus
  {
    var c := NewStudentCourse();
    var c := if form.courseId.Some? then c.(id := form.courseId.value) else c;
    var c := c.(courseName := form.courseName, courseStartAt := form.courseStartAt, courseEndAt := form.courseEndAt);
    if form.enrollmentStatus.Some? then c.(enrollmentStatus := Some(EnrollmentStatus(form.enrollmentStatus)))
    else c
  }

  /** Form to entities and back: a form with an id, a course id and an age is reproduced exactly. */
  lemma FormRoundTrip(f: StudentForm)
    requires f.id.Some? && f.courseId.Some? && f.age.Some?
    ensures ToStudent(f).Success?
    ensures ToForm(ToStudent(f).value, Some(ToCourse(f))) == f
  {
  }

  /**
   * Entities to form and back: the student comes back with `deleted` reset to `null`; the course
   * loses its student id, and a status object without a status is dropped.
   */
  lemma EntityRoundTrip(s: Student, c: StudentCourse)
    ensures ToStudent(ToForm(s, Some(c))) == Success(s.(deleted := None))
    ensures ToCourse(ToForm(s, Some(c))) ==
      c.(studentId := 0,
         enrollmentStatus := if c.enrollmentStatus == Some(EnrollmentStatus(None)) then None else c.enrollmentStatus)
  {
  }

  /** A form made without a course converts to a course with every field at its default. */
  lemma FormWithoutCourse(s: Student)
    ensures ToCourse(ToForm(s, None)) == NewStudentCourse()
  {
  }
}
