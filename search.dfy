/**
 * The search records of the `date` package, the predicates of StudentFilter and the two
 * StudentService searches built on them. The repository's search results are taken as inputs.
 */
module Search {
  import opened Wrappers
  import opened Entities
  import Seqs

  /** A `java.time.LocalDateTime`. */
  datatype DateTime = DateTime(date: Date, hour: int, minute: int, second: int, nano: int)

  /** date/Student.java: the search view of a student, with a text id and a primitive `isDeleted`. */
  datatype SearchStudent = SearchStudent(
    id: Option<string>,
    fullname: Option<string>,
    furigana: Option<string>,
    nickName: Option<string>,
    email: Option<string>,
    municipality: Option<string>,
    age: int,
    gender: Option<string>,
    remark: Option<string>,
    isDeleted: bool)

  /** date/StudentsCourses.java. */
  datatype SearchCourse = SearchCourse(
    id: int,
    studentId: int,
    courseName: Option<string>,
    startDate: Option<DateTime>,
    endDate: Option<DateTime>)

  /** `isIn30s`: aged from 30 to 39 inclusive. */
  predicate IsIn30s(student: SearchStudent) {
    student.age >= 30 && student.age <= 39
  }

  /** `isJavaCourse`: the constant-first `equals` makes a `null` name simply not match. */
  predicate IsJavaCourse(course: SearchCourse) {
    course.courseName == Some("Javaコース")
  }

  /** The boundaries of the age band, and the `null` course name. */
  lemma FilterBoundaries(s: SearchStudent, c: SearchCourse)
    ensures IsIn30s(s.(age := 30)) && IsIn30s(s.(age := 39))
    ensures !IsIn30s(s.(age := 29)) && !IsIn30s(s.(age := 40))
    ensures !IsJavaCourse(c.(courseName := None))
  {
  }

  /** `searchStudentList` over the repository's students. */
  function SearchStudentList(found: seq<SearchStudent>): seq<SearchStudent> {
    Seqs.Filter(IsIn30s, found)
  }

  /** `searchStudentsCoursesList` over the repository's courses. */
  function SearchStudentsCoursesList(found: seq<SearchCourse>): seq<SearchCourse> {
    Seqs.Filter(IsJavaCourse, found)
  }

  /**
   * Exactly the students in their thirties, at their original positions' order; no longer than the
   * input; and searching the result again returns it unchanged.
   */
  lemma SearchStudentListSpec(found: seq<SearchStudent>)
    ensures forall s | s in SearchStudentList(found) :: s in found && IsIn30s(s)
    ensures forall s | s in found && IsIn30s(s) :: s in SearchStudentList(found)
    ensures |SearchStudentList(found)| == |Seqs.MatchIndices(IsIn30s, found)| <= |found|
    ensures forall k | 0 <= k < |SearchStudentList(found)| ::
      SearchStudentList(found)[k] == found[Seqs.MatchIndices(IsIn30s, found)[k]]
    ensures SearchStudentList(SearchStudentList(found)) == SearchStudentList(found)
  {
    Seqs.FilterKeepsOrder(IsIn30s, found);
    Seqs.FilterIdempotent(IsIn30s, found);
  }

  /** The same for the Java courses. */
  lemma SearchStudentsCoursesListSpec(found: seq<SearchCourse>)
    ensures forall c | c in SearchStudentsCoursesList(found) :: c in found && IsJavaCourse(c)
    ensures forall c | c in found && IsJavaCourse(c) :: c in SearchStudentsCoursesList(found)
    ensures |SearchStudentsCoursesList(found)| == |Seqs.MatchIndices(IsJavaCourse, found)| <= |found|
    ensures forall k | 0 <= k < |SearchStudentsCoursesList(found)| ::
      SearchStudentsCoursesList(found)[k] == found[Seqs.MatchIndices(IsJavaCourse, found)[k]]
    ensures SearchStudentsCoursesList(SearchStudentsCoursesList(found)) == SearchStudentsCoursesList(found)
  {
    Seqs.FilterKeepsOrder(IsJavaCourse, found);
    Seqs.FilterIdempotent(IsJavaCourse, found);
  }
}
