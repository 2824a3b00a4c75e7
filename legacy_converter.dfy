/** The converter of the older screens (converter/StudentConverter.java): each student gets its first course. */
module LegacyConverter {
  import opened Wrappers
  import opened Entities
  import opened DomainDetail

  /** The index of the first course of student `id` in `cs`, the one `findFirst` returns. */
  function FirstMatch(cs: seq<StudentsCourses>, id: int): (r: Option<nat>)
    ensures r.Some? ==> r.value < |cs| && cs[r.value].studentId == id
    ensures r.Some? ==> forall j | 0 <= j < r.value :: cs[j].studentId != id
    ensures r.None? ==> forall j | 0 <= j < |cs| :: cs[j].studentId != id
  {
    if cs == [] then None
    else if cs[0].studentId == id then Some(0)
    else
      match FirstMatch(cs[1..], id)
      case None => None
      case Some(k) => Some(k + 1)
  }

  /** `studentsCourses.stream().filter(...).findFirst().orElse(null)`. */
  function FirstCourse(cs: seq<StudentsCourses>, id: int): Option<StudentsCourses> {
    match FirstMatch(cs, id)
    case None => None
    case Some(k) => Some(cs[k])
  }

  /**
   * `convertStudentDetails`: one detail per student, in input order, holding that student and the
   * first course with its id, or no course. Both lists must be non-`null`: the code has no guard.
   */
  method ConvertStudentDetails(students: seq<Student>, studentsCourses: seq<StudentsCourses>)
    returns (studentDetails: seq<StudentDetail>)
    ensures |studentDetails| == |students|
    ensures forall i | 0 <= i < |students| ::
      studentDetails[i] == StudentDetail(Some(students[i]), FirstCourse(studentsCourses, students[i].id))
  {
    studentDetails := [];
    for i := 0 to |students|
      invariant |studentDetails| == i
      invariant forall j | 0 <= j < i ::
        studentDetails[j] == StudentDetail(Some(students[j]), FirstCourse(studentsCourses, students[j].id))
    {
      var student := students[i];
      var detail := EmptyDetail().(student := Some(student));
      var matchedCourse := FirstCourse(studentsCourses, student.id);
      detail := detail.(studentsCourse := matchedCourse);
      studentDetails := studentDetails + [detail];
    }
  }

  /**
   * Even when several courses match, the attached one precedes every other course of the student;
   * a student without courses reads as "未登録".
   */
  lemma FirstCourseIsEarliest(cs: seq<StudentsCourses>, s: Student)
    ensures FirstCourse(cs, s.id).Some? ==> FirstCourse(cs, s.id).value in cs && FirstCourse(cs, s.id).value.studentId == s.id
    ensures forall j | 0 <= j < |cs| && cs[j].studentId == s.id ::
      FirstMatch(cs, s.id).Some? && FirstMatch(cs, s.id).value <= j
    ensures (forall c | c in cs :: c.studentId != s.id) ==>
      GetCourseName(StudentDetail(Some(s), FirstCourse(cs, s.id))) == Some(NoCourse)
  {
  }
}
