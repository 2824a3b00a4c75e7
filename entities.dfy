/**
 * The records of the `data` package as values: a Java reference that may be `null` is an
 * `Option`, an `int` field is an `int` (the default of a fresh object is 0).
 */
module Entities {
  import opened Wrappers
  import Decimal
  import Seqs

  /** A `java.time.LocalDate`; only equality of dates matters to the model. */
  datatype Date = Date(year: int, month: int, day: int)

  /** A row of `students` (data/Student.java). `deleted` is a `Boolean`, so it has three states. */
  datatype Student = Student(
    id: int,
    name: Option<string>,
    kanaName: Option<string>,
    nickname: Option<string>,
    email: Option<string>,
    area: Option<string>,
    age: int,
    sex: Option<string>,
    remark: Option<string>,
    deleted: Option<bool>)

  /** `new Student()`: every reference field `null`, every `int` field 0. */
  function NewStudent(): (s: Student)
    ensures s.id == 0 && s.age == 0 && s.deleted == None
    ensures s.name == s.kanaName == s.nickname == s.email == s.area == s.sex == s.remark == None
  {
    Student(0, None, None, None, None, None, 0, None, None, None)
  }

  /** `isActive()`: a student is active unless `deleted` is `Boolean.TRUE`. */
  predicate IsActive(s: Student)
  {
    s.deleted.None? || !s.deleted.value
  }

  /** The three states of `deleted`: `null` and `false` are active, only `true` is not. */
  lemma IsActiveTriState(s: Student)
    ensures s.deleted == None ==> IsActive(s)
    ensures s.deleted == Some(false) ==> IsActive(s)
    ensures !IsActive(s) <==> s.deleted == Some(true)
  {
  }

  /** A freshly constructed student has `deleted == null` and is active. */
  lemma NewStudentIsActive()
    ensures IsActive(NewStudent())
  {
  }

  /** String concatenation of a Java reference: `null` is rendered as "null". */
  function Show(s: Option<string>): string {
    match s
    case None => "null"
    case Some(v) => v
  }

  /** `Student.toString()`: only id, name, kanaName, email and age, in the `Student{...}` format. */
  function StudentToString(s: Student): string {
    "Student{id=" + (Decimal.IntToDecimal(s.id) + FieldsAfterId(s))
  }

  /** The part of `toString` that follows the id. */
  function FieldsAfterId(s: Student): (r: string)
    ensures r != [] && r[0] == ','
  {
    ", name='" + Show(s.name) + "'"
    + ", kanaName='" + Show(s.kanaName) + "'"
    + ", email='" + Show(s.email) + "'"
    + ", age=" + Decimal.IntToDecimal(s.age)
    + "}"
  }

  /** The rendering reads only the five listed fields. */
  lemma StudentToStringFields(s: Student, t: Student)
    requires s.id == t.id && s.name == t.name && s.kanaName == t.kanaName
    requires s.email == t.email && s.age == t.age
    ensures StudentToString(s) == StudentToString(t)
  {
  }

  /** Whatever the text fields hold, two renderings that are equal name the same id. */
  lemma StudentToStringIdentifiesId(s: Student, t: Student)
    requires StudentToString(s) == StudentToString(t)
    ensures s.id == t.id
  {
    var a, b := Decimal.IntToDecimal(s.id), Decimal.IntToDecimal(t.id);
    Seqs.PrefixCancel("Student{id=", a + FieldsAfterId(s), b + FieldsAfterId(t));
    NoCommaInDecimal(s.id);
    NoCommaInDecimal(t.id);
    Seqs.PrefixBeforeSeparator(a, FieldsAfterId(s), b, FieldsAfterId(t), ',');
    Decimal.IntToDecimalInjective(s.id, t.id);
  }

  lemma NoCommaInDecimal(n: int)
    ensures ',' !in Decimal.IntToDecimal(n)
  {
    var d := Decimal.NatToDecimal(if n < 0 then -n else n);
    assert forall i | 0 <= i < |d| :: d[i] != ',';
  }

  /** A value held by a course's enrollment status (the class is not part of the shown source). */
  datatype EnrollmentStatus = EnrollmentStatus(status: Option<string>)

  /** A course of a student, with the fields the converter reads and writes. */
  datatype StudentCourse = StudentCourse(
    id: int,
    studentId: int,
    courseName: Option<string>,
    courseStartAt: Option<Date>,
    courseEndAt: Option<Date>,
    enrollmentStatus: Option<EnrollmentStatus>)

  /** `new StudentCourse()`. */
  function NewStudentCourse(): (c: StudentCourse)
    ensures c.id == 0 && c.studentId == 0 && c.enrollmentStatus == None
    ensures c.courseName == None && c.courseStartAt == None && c.courseEndAt == None
  {
    StudentCourse(0, 0, None, None, None, None)
  }

  /** The courses of `cs` that belong to student `k`, in their order in `cs`. */
  function CoursesOf(cs: seq<StudentCourse>, k: int): (r: seq<StudentCourse>)
    ensures |r| <= |cs|
    ensures forall c | c in r :: c in cs && c.studentId == k
    ensures forall c | c in cs && c.studentId == k :: c in r
  {
    if cs == [] then []
    else (if cs[0].studentId == k then [cs[0]] else []) + CoursesOf(cs[1..], k)
  }

  /** Selecting a student's courses distributes over concatenation: the order of `cs` is kept. */
  lemma {:induction false} CoursesOfAppend(a: seq<StudentCourse>, b: seq<StudentCourse>, k: int)
    ensures CoursesOf(a + b, k) == CoursesOf(a, k) + CoursesOf(b, k)
  {
    if a == [] {
      assert a + b == b;
    } else {
      assert (a + b)[1..] == a[1..] + b;
      CoursesOfAppend(a[1..], b, k);
    }
  }

  /** A student none of whose courses is in `cs` selects nothing. */
  lemma {:induction false} CoursesOfAbsent(cs: seq<StudentCourse>, k: int)
    requires forall c | c in cs :: c.studentId != k
    ensures CoursesOf(cs, k) == []
  {
    if cs != [] {
      assert cs[0] in cs;
      assert forall c | c in cs[1..] :: c in cs;
      CoursesOfAbsent(cs[1..], k);
    }
  }

  /** A row of the older `students_courses` record (data/StudentsCourses.java). */
  datatype StudentsCourses = StudentsCourses(
    id: int,
    studentId: int,
    courseName: Option<string>,
    startDate: Option<Date>,
    endDate: Option<Date>)
}
