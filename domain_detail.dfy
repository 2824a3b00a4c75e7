/** The single-course detail of the older screens (domain/StudentDetail.java). */
module DomainDetail {
  import opened Wrappers
  import opened Entities

  /** A student and at most one course; either reference may be `null`. */
  datatype StudentDetail = StudentDetail(student: Option<Student>, studentsCourse: Option<StudentsCourses>)

  /** `new StudentDetail()`: both references `null`. */
  function EmptyDetail(): (d: StudentDetail)
    ensures d.student.None? && d.studentsCourse.None?
  {
    StudentDetail(None, None)
  }

  /** `new StudentDetail(student, studentsCourse)` stores both arguments unchanged. */
  function NewDetail(student: Option<Student>, studentsCourse: Option<StudentsCourses>): (d: StudentDetail)
    ensures d.student == student && d.studentsCourse == studentsCourse
  {
    StudentDetail(student, studentsCourse)
  }

  const UnknownStudent := "不明"
  const NoCourse := "未登録"

  /** `getStudentName()`: "不明" without a student, else the student's name (which may itself be `null`). */
  function GetStudentName(d: StudentDetail): (r: Option<string>)
    ensures d.student.None? ==> r == Some(UnknownStudent)
    ensures d.student.Some? ==> r == d.student.value.name
  {
    if d.student.None? then Some(UnknownStudent) else d.student.value.name
  }

  /** `getCourseName()`: "未登録" without a course, else the course's name. */
  function GetCourseName(d: StudentDetail): (r: Option<string>)
    ensures d.studentsCourse.None? ==> r == Some(NoCourse)
    ensures d.studentsCourse.Some? ==> r == d.studentsCourse.value.courseName
  {
    if d.studentsCourse.None? then Some(NoCourse) else d.studentsCourse.value.courseName
  }

  /** `toString()`, built from the two getters. */
  function DetailToString(d: StudentDetail): string {
    "StudentDetail{studentName=" + Show(GetStudentName(d)) + ", courseName=" + Show(GetCourseName(d)) + "}"
  }

  /**
   * The fallbacks are what the text shows: an empty detail reads "不明" and "未登録", and a
   * detail is rendered from the student's and the course's names alone.
   */
  lemma DetailToStringFallbacks(d: StudentDetail, e: StudentDetail)
    ensures DetailToString(EmptyDetail()) == "StudentDetail{studentName=不明, courseName=未登録}"
    ensures GetStudentName(d) == GetStudentName(e) && GetCourseName(d) == GetCourseName(e) ==>
      DetailToString(d) == DetailToString(e)
  {
  }
}
