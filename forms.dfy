/**
 * The request forms of the `form` package: the constraint annotations of StudentForm as a
 * validity predicate and as the set of violations Bean Validation reports, and
 * `StudentsCoursesForm.toEntity`.
 */
module Forms {
  import opened Wrappers
  import opened Entities

  /**
   * The fields of StudentForm. `enrollmentStatus` is not declared in the shown form class, but the
   * converter reads and writes it, so the model carries it as an unconstrained text.
   */
  datatype StudentForm = StudentForm(
    id: Option<int>,
    courseId: Option<int>,
    name: Option<string>,
    kanaName: Option<string>,
    nickname: Option<string>,
    email: Option<string>,
    area: Option<string>,
    age: Option<int>,
    sex: Option<string>,
    remark: Option<string>,
    courseName: Option<string>,
    courseStartAt: Option<Date>,
    courseEndAt: Option<Date>,
    enrollmentStatus: Option<string>)

  /** `new StudentForm()`: every field `null`. */
  function EmptyForm(): StudentForm {
    StudentForm(None, None, None, None, None, None, None, None, None, None, None, None, None, None)
  }

  /** `String.trim()` drops every leading and trailing character at or below U+0020. */
  function JavaTrimStart(s: string): (r: string)
    ensures |r| <= |s| && r == s[|s| - |r|..]
    ensures r != [] ==> r[0] > ' '
  {
    if s != [] && s[0] <= ' ' then JavaTrimStart(s[1..]) else s
  }

  function JavaTrimEnd(s: string): (r: string)
    ensures |r| <= |s| && r == s[..|r|]
    ensures r != [] ==> r[|r| - 1] > ' '
  {
    if s != [] && s[|s| - 1] <= ' ' then JavaTrimEnd(s[..|s| - 1]) else s
  }

  function JavaTrim(s: string): string {
    JavaTrimEnd(JavaTrimStart(s))
  }

  /** `@NotBlank`: not `null`, and `trim()` leaves something. */
  predicate NotBlank(s: Option<string>) {
    s.Some? && |JavaTrim(s.value)| > 0
  }

  /** A text is blank exactly when every character is at or below U+0020. */
  lemma {:induction false} JavaTrimStartEmpty(s: string)
    ensures JavaTrimStart(s) == [] <==> forall i | 0 <= i < |s| :: s[i] <= ' '
  {
    if s != [] && s[0] <= ' ' {
      JavaTrimStartEmpty(s[1..]);
      assert forall i | 1 <= i < |s| :: s[i] == s[1..][i - 1];
    }
  }

  lemma {:induction false} JavaTrimEndEmpty(s: string)
    ensures JavaTrimEnd(s) == [] <==> forall i | 0 <= i < |s| :: s[i] <= ' '
  {
    if s != [] && s[|s| - 1] <= ' ' {
      JavaTrimEndEmpty(s[..|s| - 1]);
      assert forall i | 0 <= i < |s| - 1 :: s[i] == s[..|s| - 1][i];
    }
  }

  /** `@NotBlank` holds exactly when some character lies above U+0020. */
  lemma NotBlankIff(s: Option<string>)
    ensures NotBlank(s) <==> s.Some? && exists i | 0 <= i < |s.value| :: s.value[i] > ' '
  {
    if s.Some? {
      JavaTrimStartEmpty(s.value);
      JavaTrimEndEmpty(JavaTrimStart(s.value));
    }
  }

  /** The position of the last '@' of `s`, if any (`lastIndexOf('@')`). */
  function LastAt(s: string): (r: Option<nat>)
    ensures r.Some? ==> r.value < |s| && s[r.value] == '@' && '@' !in s[r.value + 1..]
    ensures r.None? ==> '@' !in s
  {
    if s == [] then None
    else if s[|s| - 1] == '@' then Some(|s| - 1)
    else
      var r := LastAt(s[..|s| - 1]);
      assert s == s[..|s| - 1] + [s[|s| - 1]];
      r
  }

  /**
   * `@Email` as Hibernate Validator checks it: `null` and the empty text are accepted; otherwise the
   * text is split at its last '@', and `partsOk` judges the local part and the domain. Without an
   * '@' the address is rejected.
   */
  predicate EmailOk(email: Option<string>, partsOk: (string, string) -> bool) {
    match email
    case None => true
    case Some(e) =>
      e == [] ||
      match LastAt(e)
      case None => false
      case Some(k) => partsOk(e[..k], e[k + 1..])
  }

  /** An address without '@' is rejected whatever the local-part and domain grammar. */
  lemma EmailNeedsAt(e: string, partsOk: (string, string) -> bool)
    requires e != [] && EmailOk(Some(e), partsOk)
    ensures '@' in e
  {
  }

  /** The constraints of StudentForm, field by field. */
  predicate Valid(f: StudentForm, partsOk: (string, string) -> bool) {
    && NotBlank(f.name)
    && NotBlank(f.kanaName)
    && EmailOk(f.email, partsOk) && NotBlank(f.email)
    && NotBlank(f.area)
    && f.age.Some? && f.age.value >= 16
    && NotBlank(f.sex)
    && NotBlank(f.courseName)
    && f.courseStartAt.Some?
    && f.courseEndAt.Some?
  }

  /** A constraint violation: the field and the annotation's message. */
  datatype Violation = Violation(field: string, message: string)

  /** `NotBlank` and `NotNull` violations, and `@Min`, which accepts `null`. */
  function Blank(field: string, s: Option<string>, message: string): set<Violation> {
    if NotBlank(s) then {} else {Violation(field, message)}
  }

  function Missing<T>(field: string, s: Option<T>, message: string): set<Violation> {
    if s.Some? then {} else {Violation(field, message)}
  }

  /** Every violation Bean Validation reports for the form, with the annotations' messages. */
  function Violations(f: StudentForm, partsOk: (string, string) -> bool): set<Violation> {
    Blank("name", f.name, "名前は必須です")
    + Blank("kanaName", f.kanaName, "カナ名は必須です")
    + (if EmailOk(f.email, partsOk) then {} else {Violation("email", "正しいメールアドレスを入力してください")})
    + Blank("email", f.email, "メールアドレスは必須です")
    + Blank("area", f.area, "地域は必須です")
    + Missing("age", f.age, "年齢は必須です")
    + (if f.age.Some? && f.age.value < 16 then {Violation("age", "年齢は16歳以上で入力してください")} else {})
    + Blank("sex", f.sex, "性別を選択してください")
    + Blank("courseName", f.courseName, "コース名を選択してください")
    + Missing("courseStartAt", f.courseStartAt, "開始日を入力してください")
    + Missing("courseEndAt", f.courseEndAt, "終了日を入力してください")
  }

  /** The form is valid exactly when no constraint reports a violation. */
  lemma ValidIffNoViolations(f: StudentForm, partsOk: (string, string) -> bool)
    ensures Valid(f, partsOk) <==> Violations(f, partsOk) == {}
  {
    if !Valid(f, partsOk) {
      var v := Violations(f, partsOk);
      if !NotBlank(f.name) { assert Violation("name", "名前は必須です") in v; }
      else if !NotBlank(f.kanaName) { assert Violation("kanaName", "カナ名は必須です") in v; }
      else if !EmailOk(f.email, partsOk) { assert Violation("email", "正しいメールアドレスを入力してください") in v; }
      else if !NotBlank(f.email) { assert Violation("email", "メールアドレスは必須です") in v; }
      else if !NotBlank(f.area) { assert Violation("area", "地域は必須です") in v; }
      else if f.age.None? { assert Violation("age", "年齢は必須です") in v; }
      else if f.age.value < 16 { assert Violation("age", "年齢は16歳以上で入力してください") in v; }
      else if !NotBlank(f.sex) { assert Violation("sex", "性別を選択してください") in v; }
      else if !NotBlank(f.courseName) { assert Violation("courseName", "コース名を選択してください") in v; }
      else if f.courseStartAt.None? { assert Violation("courseStartAt", "開始日を入力してください") in v; }
      else { assert Violation("courseEndAt", "終了日を入力してください") in v; }
    }
  }

  /** id, courseId, nickname, remark and enrollmentStatus carry no constraint. */
  lemma UnconstrainedFields(f: StudentForm, partsOk: (string, string) -> bool,
                            id: Option<int>, courseId: Option<int>, nickname: Option<string>,
                            remark: Option<string>, status: Option<string>)
    ensures Violations(f.(id := id, courseId := courseId, nickname := nickname, remark := remark,
                          enrollmentStatus := status), partsOk) == Violations(f, partsOk)
  {
  }

  /** No constraint caps the age or relates the two dates: any age from 16 and any two dates will do. */
  lemma NoCrossFieldConstraint(f: StudentForm, partsOk: (string, string) -> bool, age: int, start: Date, end: Date)
    requires Valid(f, partsOk) && age >= 16
    ensures Valid(f.(age := Some(age), courseStartAt := Some(start), courseEndAt := Some(end)), partsOk)
  {
  }

  /** A form with an empty name, one aged 15 and one with the address "test" are each rejected. */
  lemma RejectedExamples(f: StudentForm, partsOk: (string, string) -> bool)
    ensures Violation("name", "名前は必須です") in Violations(f.(name := Some("")), partsOk)
    ensures Violation("age", "年齢は16歳以上で入力してください") in Violations(f.(age := Some(15)), partsOk)
    ensures Violation("email", "正しいメールアドレスを入力してください") in Violations(f.(email := Some("test")), partsOk)
  {
    assert LastAt("test") == None by {
      assert '@' !in "test";
    }
  }

  /** The course-registration form of the older screens. */
  datatype StudentsCoursesForm = StudentsCoursesForm(
    courseName: Option<string>,
    startDate: Option<Date>,
    endDate: Option<Date>)

  /** `toEntity(studentId)`: a new row for that student; its own id keeps the `int` default 0. */
  function ToEntity(form: StudentsCoursesForm, studentId: int): (e: StudentsCourses)
    ensures e.id == 0 && e.studentId == studentId
    ensures e.courseName == form.courseName
    ensures e.startDate == form.startDate && e.endDate == form.endDate
  {
    StudentsCourses(0, studentId, form.courseName, form.startDate, form.endDate)
  }

  /** Nothing of the form is lost: the row determines the form and the student it was made for. */
  lemma ToEntityInjective(f: StudentsCoursesForm, g: StudentsCoursesForm, m: int, n: int)
    requires ToEntity(f, m) == ToEntity(g, n)
    ensures f == g && m == n
  {
  }
}
