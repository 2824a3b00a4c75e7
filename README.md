# Student management: a verified model of its core rules

This project models the logic of a small Spring Boot and JavaScript student-management
application. The model has four parts.

- **Server side, Java.**
  - The mapping between student/course entities and the REST form (`toDetails`, `toForm`,
    `toStudent`, `toCourse`).
  - The older first-match join `convertStudentDetails`.
  - The MyBatis mapper `StudentRepository`, modelled as an in-memory store. It has a
    `students` table, a `students_courses` table and two id counters.
  - The `HashMap` name→age registry of `Application`.
  - `Student.isActive` and `toString`, and the single-course `StudentDetail` with its null
    fallbacks.
  - The bean-validation rules of `StudentForm` and `StudentsCoursesForm.toEntity`.
  - The `StudentFilter` predicates and the `StudentService` filters built on them.
  - The error-kind→response table of `GlobalExceptionHandler`.
- **Browser side, JavaScript.**
  - Space normalisation (U+0020 → U+3000) and the hiragana→katakana shift.
  - The course-name→months lookup of `calculateEndDate`.
  - The submit checks and the row filter of the student list, plus its result text.
  - The field labels and change detection of the edit page.
  - The input, blur and submit normalisation and the custom-validity rules of the
    registration pages.

Java strings are Dafny `string`. A Java `null` is `Option.None`. JavaScript strings are
sequences of UTF-16 code units (`JsText.JsString`); string literals of the scripts are written
either as code units or through the UTF-16 encoder `JsText.Utf16`. Literal code units are
related to the names the scripts write by lemmas such as `CourseDuration.JavaIntroEncoded`.

Modules and files:

| File | Module and contents |
|---|---|
| `wrappers.dfy` | `Wrappers`: `Option` and `Result`. |
| `seqs.dfy` | `Seqs`: an order-keeping filter and sequence facts. |
| `decimal.dfy` | `Decimal`: Java/JS decimal rendering of integers. |
| `jstext.dfy` | `JsText`: `parseInt`, `trim`, `includes` and ASCII lower-casing. |
| `entities.dfy` | `Entities`: `Student`, `StudentCourse` and `StudentsCourses`. |
| `converter.dfy` | `Converter`: the controller converter. |
| `legacy_converter.dfy` | `LegacyConverter`: the older converter. |
| `domain_detail.dfy` | `DomainDetail`: the single-course `StudentDetail`. |
| `repository.dfy` | `Repository`: the mapper as the class `StudentStore`. |
| `registry.dfy` | `Registry`: `Application` as a class over a `map`. |
| `forms.dfy` | `Forms`: validity of `StudentForm` and `toEntity`. |
| `search.dfy` | `Search`: `StudentFilter` and `StudentService`. |
| `error_handler.dfy` | `ErrorHandler`: the exception handler as a function. |
| `kana.dfy` | `Kana`: common.js conversions. |
| `course_duration.dfy` | `CourseDuration`: the months lookup. |
| `student_page.dfy` | `StudentPage`: student.js. |
| `edit_form.dfy` | `EditForm`: edit-script.js. |
| `register_form.dfy` | `RegisterForm`: register-script.js and register-student.js. |

Behaviour worth noting:

- `toStudent` unboxes the form's `Integer age` into an `int`. A form without an age therefore
  throws, and `Converter.ToStudent` returns `Failure` for it.
- `student.js` looks the months up in an object with `|| 6`, while the other three scripts use a
  `switch` with a default of 6. The two coincide on every name (`CourseDuration.SwitchAgreesWithTable`).
- In `register-script.js` a value that `parseInt` cannot read clears the age error, because both
  comparisons with `NaN` are false. `student.js` rejects the same value on submit.
  `RegisterForm.AgeRulesDiffer` proves both.
- `updateCourse` is keyed by the course id alone. Other rows of the same student are never
  touched (`Repository.UpdateCourseKeyedById`).

## Model

| member | source | states |
|---|---|---|
| Entities.NewStudent | src/main/java/raisetech/StudentManagement/data/Student.java:19-22 | a fresh student has id and age 0, every reference field null and `deleted` null |
| Entities.IsActive | src/main/java/raisetech/StudentManagement/data/Student.java:25-27 | a student is active unless `deleted` is true; the three cases are the next row |
| Entities.IsActiveTriState | src/main/java/raisetech/StudentManagement/data/Student.java:25-27 | `deleted` null or false is active; inactive exactly when `deleted` is true |
| Entities.NewStudentIsActive | src/main/java/raisetech/StudentManagement/data/Student.java:19-27 | a freshly constructed student is active |
| Entities.FieldsAfterId | src/main/java/raisetech/StudentManagement/data/Student.java:31-37 | the text after the id starts with the `,` separator |
| Entities.StudentToString | src/main/java/raisetech/StudentManagement/data/Student.java:30-38 | the fixed `Student{id=…, name=…, kanaName=…, email=…, age=…}` text; the next two rows state what it reveals |
| Entities.StudentToStringFields | src/main/java/raisetech/StudentManagement/data/Student.java:30-38 | `toString` depends only on id, name, kanaName, email and age |
| Entities.StudentToStringIdentifiesId | src/main/java/raisetech/StudentManagement/data/Student.java:30-38 | two students with the same `toString` text have the same id |
| Entities.NoCommaInDecimal | src/main/java/raisetech/StudentManagement/data/Student.java:32 | the decimal rendering of an id holds no comma, so the id field ends at the first `,` |
| Entities.NewStudentCourse | src/main/java/raisetech/StudentManagement/controller/converter/StudentConverter.java:119 | a fresh course has ids 0 and every other field null |
| Entities.CoursesOf | src/main/java/raisetech/StudentManagement/controller/converter/StudentConverter.java:29-30 | the courses of one student are exactly the input courses with that studentId, none added |
| Entities.CoursesOfAppend | src/main/java/raisetech/StudentManagement/controller/converter/StudentConverter.java:29-30 | selecting one student's courses distributes over concatenation, so input order is kept |
| Entities.CoursesOfAbsent | src/main/java/raisetech/StudentManagement/controller/converter/StudentConverter.java:34 | a student with no matching course gets the empty list |
| Converter.AddCourseStep | src/main/java/raisetech/StudentManagement/controller/converter/StudentConverter.java:29-30 | adding one course to a grouping of a prefix gives a grouping of the longer prefix |
| Converter.GroupByStudentId | src/main/java/raisetech/StudentManagement/controller/converter/StudentConverter.java:29-30 | `groupingBy(studentId)` maps each key present to that student's courses in input order |
| Converter.GroupLookup | src/main/java/raisetech/StudentManagement/controller/converter/StudentConverter.java:29-30 | a key is in the grouping iff that student has a course, and its group is exactly those courses |
| Converter.CreateStudentDetail | src/main/java/raisetech/StudentManagement/controller/converter/StudentConverter.java:41-46 | the detail keeps the student and the given course list, and a null list becomes an empty list |
| Converter.ToDetails | src/main/java/raisetech/StudentManagement/controller/converter/StudentConverter.java:24-36 | null students give []; otherwise one detail per student, in order, with that student and exactly its courses in input order |
| Converter.ToDetailsWithoutCourses | src/main/java/raisetech/StudentManagement/controller/converter/StudentConverter.java:29-31 | a null course list behaves like an empty one and leaves every course list empty |
| Converter.ToDetailsPlacesEachCourse | src/main/java/raisetech/StudentManagement/controller/converter/StudentConverter.java:29-35 | a course appears in detail i iff its studentId is student i's id; a course of no listed student appears nowhere |
| Converter.ToForm | src/main/java/raisetech/StudentManagement/controller/converter/StudentConverter.java:56-83 | copies the nine student fields; with a course copies its id, name, start and end, and the status only when present; without one they stay null |
| Converter.ToStudent | src/main/java/raisetech/StudentManagement/controller/converter/StudentConverter.java:91-110 | fails exactly when age is null; otherwise copies the eight scalar fields, the id when present (else 0), and never sets `deleted` |
| Converter.ToCourse | src/main/java/raisetech/StudentManagement/controller/converter/StudentConverter.java:118-138 | copies name, start and end; the id only when present (else 0); the status wrapped iff present; studentId never set |
| Converter.FormRoundTrip | src/main/java/raisetech/StudentManagement/controller/converter/StudentConverter.java:56-138 | a form with id, courseId and age survives `toForm(toStudent(f), toCourse(f))` unchanged |
| Converter.EntityRoundTrip | src/main/java/raisetech/StudentManagement/controller/converter/StudentConverter.java:56-138 | entities survive the trip through the form, except `deleted` and the course's studentId |
| Converter.FormWithoutCourse | src/main/java/raisetech/StudentManagement/controller/converter/StudentConverter.java:56-83 | a form built without a course gives back a course with only default fields |
| LegacyConverter.FirstMatch | src/main/java/raisetech/StudentManagement/converter/StudentConverter.java:23-26 | the index found is the first course with that studentId, and None means no course matches |
| LegacyConverter.FirstCourse | src/main/java/raisetech/StudentManagement/converter/StudentConverter.java:23-26 | the course at the first matching index, or null |
| LegacyConverter.ConvertStudentDetails | src/main/java/raisetech/StudentManagement/converter/StudentConverter.java:14-32 | one detail per student, in order, holding that student and its first matching course or null |
| LegacyConverter.FirstCourseIsEarliest | src/main/java/raisetech/StudentManagement/converter/StudentConverter.java:23-28 | the attached course matches and precedes every other match; with no match it is null |
| DomainDetail.EmptyDetail | src/main/java/raisetech/StudentManagement/domain/StudentDetail.java:19-20 | the no-argument constructor leaves student and course null |
| DomainDetail.NewDetail | src/main/java/raisetech/StudentManagement/domain/StudentDetail.java:22-25 | the two-argument constructor stores both arguments unchanged |
| DomainDetail.GetStudentName | src/main/java/raisetech/StudentManagement/domain/StudentDetail.java:28-33 | "不明" without a student, else the student's name |
| DomainDetail.GetCourseName | src/main/java/raisetech/StudentManagement/domain/StudentDetail.java:36-41 | "未登録" without a course, else the course's name |
| DomainDetail.DetailToString | src/main/java/raisetech/StudentManagement/domain/StudentDetail.java:43-49 | the text is built from the two getters, so it shows the fallbacks |
| DomainDetail.DetailToStringFallbacks | src/main/java/raisetech/StudentManagement/domain/StudentDetail.java:43-49 | an empty detail prints both fallbacks; the text depends only on the two names |
| Repository.SqlActiveIsActive | src/main/java/raisetech/StudentManagement/repository/StudentRepository.java:24-25 | `deleted IS NULL OR deleted = 0` is the same rule as `Student.isActive` |
| Repository.ActiveStudents | src/main/java/raisetech/StudentManagement/repository/StudentRepository.java:22-28 | the rows the WHERE clause keeps, in table order |
| Repository.CountUnique | src/main/java/raisetech/StudentManagement/repository/StudentRepository.java:95-118 | with increasing ids an id matches at most one row, so an update or delete by id reports 0 or 1 |
| Repository.KeysOkAppend | src/main/java/raisetech/StudentManagement/repository/StudentRepository.java:76-81 | appending the next generated id keeps ids increasing and below the counter |
| Repository.FindStudent | src/main/java/raisetech/StudentManagement/repository/StudentRepository.java:33-38 | the row found has the id asked for; None means no row has it, deleted or not |
| Repository.FindStudentAppend | src/main/java/raisetech/StudentManagement/repository/StudentRepository.java:33-38 | a row appended with a fresh id is the one found for that id |
| Repository.ActiveStudentsSnoc | src/main/java/raisetech/StudentManagement/repository/StudentRepository.java:22-28 | the active listing of a longer table extends the old one by the new row exactly when it is active |
| Repository.ActiveStudentsIncreasing | src/main/java/raisetech/StudentManagement/repository/StudentRepository.java:22-28 | the active listing keeps id order |
| Repository.SetStudentColumns | src/main/java/raisetech/StudentManagement/repository/StudentRepository.java:95-101 | the SET list never changes the row's id or `deleted` |
| Repository.StudentsUpdated | src/main/java/raisetech/StudentManagement/repository/StudentRepository.java:95-101 | an update keeps every row and its id in place |
| Repository.SetCourseColumns | src/main/java/raisetech/StudentManagement/repository/StudentRepository.java:107-112 | the course SET list never changes id, studentId or status |
| Repository.CoursesUpdated | src/main/java/raisetech/StudentManagement/repository/StudentRepository.java:107-112 | a course update keeps every row and its id in place |
| Repository.SoftDeleted | src/main/java/raisetech/StudentManagement/repository/StudentRepository.java:117-118 | a soft delete keeps every row and its id in place |
| Repository.CoursesOfSnoc | src/main/java/raisetech/StudentManagement/repository/StudentRepository.java:60-71 | selecting a student's courses from a longer table adds the new row only if it is theirs |
| Repository.CoursesOfIncreasing | src/main/java/raisetech/StudentManagement/repository/StudentRepository.java:60-71 | selecting one student's courses keeps ascending course id order |
| Repository.AppendIncreasing | src/main/java/raisetech/StudentManagement/repository/StudentRepository.java:86-90 | appending a course with a larger id keeps ids increasing |
| Repository.PrependSorted | src/main/java/raisetech/StudentManagement/repository/StudentRepository.java:44-54 | a row placed before a sorted tail that it precedes keeps (student_id, id) order |
| Repository.InsertSorted | src/main/java/raisetech/StudentManagement/repository/StudentRepository.java:44-54 | inserting into a (student_id, id) ordered list keeps it ordered and adds exactly that row |
| Repository.HeadBeforeAll | src/main/java/raisetech/StudentManagement/repository/StudentRepository.java:44-54 | a row before the head of a sorted list is before all of it |
| Repository.TailSorted | src/main/java/raisetech/StudentManagement/repository/StudentRepository.java:44-54 | the tail of a sorted list is sorted |
| Repository.HeadBeforeInserted | src/main/java/raisetech/StudentManagement/repository/StudentRepository.java:44-54 | the head still precedes everything after inserting a later row into the tail |
| Repository.StudentStore.constructor | src/main/java/raisetech/StudentManagement/repository/StudentRepository.java:15-16 | the store starts with both tables empty |
| Repository.StudentStore.GetActiveStudents | src/main/java/raisetech/StudentManagement/repository/StudentRepository.java:22-28 | exactly the rows with `deleted` NULL or 0, in id order |
| Repository.StudentStore.GetStudentById | src/main/java/raisetech/StudentManagement/repository/StudentRepository.java:33-38 | the row with that id, deleted or not, or None |
| Repository.StudentStore.GetAllCourses | src/main/java/raisetech/StudentManagement/repository/StudentRepository.java:44-54 | a permutation of the course table ordered by (student_id, id) |
| Repository.StudentStore.GetCoursesByStudentId | src/main/java/raisetech/StudentManagement/repository/StudentRepository.java:60-71 | exactly that student's courses, in ascending course id order, empty when there are none |
| Repository.StudentStore.SaveStudent | src/main/java/raisetech/StudentManagement/repository/StudentRepository.java:76-81 | returns 1, writes back a fresh id and appends one active row; courses unchanged |
| Repository.StudentStore.SaveCourse | src/main/java/raisetech/StudentManagement/repository/StudentRepository.java:86-90 | returns 1 and appends one row with the given studentId and a fresh id |
| Repository.StudentStore.UpdateStudent | src/main/java/raisetech/StudentManagement/repository/StudentRepository.java:95-101 | overwrites the listed columns of the row with that id; returns 1, or 0 when the id is absent |
| Repository.StudentStore.UpdateCourse | src/main/java/raisetech/StudentManagement/repository/StudentRepository.java:107-112 | overwrites name, start and end of the row whose course id matches; returns the affected count |
| Repository.StudentStore.DeleteStudent | src/main/java/raisetech/StudentManagement/repository/StudentRepository.java:117-118 | sets `deleted = 1`; returns 1 when the id exists, also when already deleted, else 0 |
| Repository.SavedStudentIsFound | src/main/java/raisetech/StudentManagement/repository/StudentRepository.java:33-38 | a saved student is found under its new id with the saved fields |
| Repository.SoftDeleteSpec | src/main/java/raisetech/StudentManagement/repository/StudentRepository.java:117-118 | soft delete is idempotent, removes the row from the active listing and keeps every other active row |
| Repository.SoftDeleteCountStable | src/main/java/raisetech/StudentManagement/repository/StudentRepository.java:117-118 | deleting again still reports 1, since the row stays in the table |
| Repository.UpdateStudentKeeps | src/main/java/raisetech/StudentManagement/repository/StudentRepository.java:95-101 | other rows are unchanged; the matching row takes the new columns and keeps id and `deleted` |
| Repository.UpdateCourseKeyedById | src/main/java/raisetech/StudentManagement/repository/StudentRepository.java:107-112 | only the row with the matching course id changes, even among one student's rows |
| Registry.Application.constructor | src/main/java/raisetech/StudentManagement/Application.java:15 | the map starts empty |
| Registry.Application.RegisterStudent | src/main/java/raisetech/StudentManagement/Application.java:22-26 | upserts name→age, other entries untouched, and returns the confirmation text |
| Registry.Application.GetAllStudents | src/main/java/raisetech/StudentManagement/Application.java:29-40 | the empty-map text iff the map is empty; else one "name：age歳" line per key, each key once, in some order |
| Registry.Application.GetStudent | src/main/java/raisetech/StudentManagement/Application.java:43-50 | read-only; the age message iff the name is registered |
| Registry.Application.UpdateAge | src/main/java/raisetech/StudentManagement/Application.java:53-62 | changes the age only of a registered name, keeps the key set, and never adds one |
| Registry.Application.DeleteStudent | src/main/java/raisetech/StudentManagement/Application.java:64-73 | removes the name; an absent name leaves the map and gets the not-registered text |
| Registry.NonEmptyListingEndsWithNewline | src/main/java/raisetech/StudentManagement/Application.java:34-39 | a non-empty listing is never the empty-map text |
| Registry.DistinctKeysCount | src/main/java/raisetech/StudentManagement/Application.java:35-37 | a listing order naming each key once has as many lines as the map has entries |
| Registry.DistinctCard | src/main/java/raisetech/StudentManagement/Application.java:35-37 | a sequence without repeats has as many elements as its set |
| Registry.DeleteThenGet | src/main/java/raisetech/StudentManagement/Application.java:45-49 | after deleting n, n is reported not registered and every other answer is unchanged |
| Forms.JavaTrimStart | src/main/java/raisetech/StudentManagement/form/StudentForm.java:21 | leading characters up to U+0020 are removed, and only those |
| Forms.JavaTrimEnd | src/main/java/raisetech/StudentManagement/form/StudentForm.java:21 | trailing characters up to U+0020 are removed, and only those |
| Forms.JavaTrimStartEmpty | src/main/java/raisetech/StudentManagement/form/StudentForm.java:21 | nothing is left exactly when every character is at most U+0020 |
| Forms.JavaTrimEndEmpty | src/main/java/raisetech/StudentManagement/form/StudentForm.java:21 | nothing is left exactly when every character is at most U+0020 |
| Forms.NotBlankIff | src/main/java/raisetech/StudentManagement/form/StudentForm.java:21-47 | `@NotBlank` holds iff the value is non-null and has a character above U+0020 |
| Forms.NotBlank | src/main/java/raisetech/StudentManagement/form/StudentForm.java:21-47 | `@NotBlank`: non-null and non-empty after `trim()` |
| Forms.LastAt | src/main/java/raisetech/StudentManagement/form/StudentForm.java:30 | the position of the last '@', or None when there is none |
| Forms.EmailOk | src/main/java/raisetech/StudentManagement/form/StudentForm.java:30-32 | `@Email`: null and "" pass; otherwise the text splits at its last '@' and the parts are judged |
| Forms.EmailNeedsAt | src/main/java/raisetech/StudentManagement/form/StudentForm.java:30-32 | a non-empty email that passes `@Email` contains '@' |
| Forms.Valid | src/main/java/raisetech/StudentManagement/form/StudentForm.java:18-53 | the conjunction of the field constraints, field by field |
| Forms.Violations | src/main/java/raisetech/StudentManagement/form/StudentForm.java:18-53 | one violation with the annotation's message per failed constraint |
| Forms.ValidIffNoViolations | src/main/java/raisetech/StudentManagement/form/StudentForm.java:18-53 | the form is valid iff no field has a constraint violation |
| Forms.UnconstrainedFields | src/main/java/raisetech/StudentManagement/form/StudentForm.java:18-44 | id, courseId, nickname and remark never affect the violations |
| Forms.NoCrossFieldConstraint | src/main/java/raisetech/StudentManagement/form/StudentForm.java:37-53 | no upper age bound and no order between start and end dates is required |
| Forms.RejectedExamples | src/main/java/raisetech/StudentManagement/form/StudentForm.java:21-39 | an empty name, age 15 and email "test" each produce their annotation's message |
| Forms.ToEntity | src/main/java/raisetech/StudentManagement/form/StudentsCoursesForm.java:24-31 | the entity carries the given studentId, keeps its own id at 0 and copies courseName, startDate and endDate unchanged |
| Forms.ToEntityInjective | src/main/java/raisetech/StudentManagement/form/StudentsCoursesForm.java:24-31 | nothing of the form or the studentId is lost: equal entities come from equal forms and equal ids |
| Search.FilterBoundaries | src/main/java/raisetech/StudentManagement/filter/StudentFilter.java:15-22 | ages 30 and 39 pass and 29 and 40 fail; a null course name is not a Java course |
| Search.IsIn30s | src/main/java/raisetech/StudentManagement/filter/StudentFilter.java:15-17 | true exactly for ages 30 to 39 inclusive |
| Search.IsJavaCourse | src/main/java/raisetech/StudentManagement/filter/StudentFilter.java:20-22 | true exactly for the course name "Javaコース"; a null name gives false |
| Search.SearchStudentList | src/main/java/raisetech/StudentManagement/service/StudentService.java:20-24 | the repository students kept by `isIn30s`; their properties are the row after next |
| Search.SearchStudentsCoursesList | src/main/java/raisetech/StudentManagement/service/StudentService.java:26-30 | the repository courses kept by `isJavaCourse`; their properties are the last row of this group |
| Search.SearchStudentListSpec | src/main/java/raisetech/StudentManagement/service/StudentService.java:20-24 | exactly the students in their 30s, in input order, no longer than the input, and stable under refiltering |
| Search.SearchStudentsCoursesListSpec | src/main/java/raisetech/StudentManagement/service/StudentService.java:26-30 | exactly the "Javaコース" courses, in input order, no longer than the input, and stable under refiltering |
| Seqs.MatchIndices | src/main/java/raisetech/StudentManagement/service/StudentService.java:22 | the ascending positions of the elements that satisfy the predicate |
| Seqs.FilterKeepsOrder | src/main/java/raisetech/StudentManagement/service/StudentService.java:22 | the k-th kept element is the element at the k-th matching position |
| ErrorHandler.Reduce | src/main/java/raisetech/StudentManagement/controller/handler/GlobalExceptionHandler.java:51 | the reduction is empty exactly when there are no field errors |
| ErrorHandler.JoinSnoc | src/main/java/raisetech/StudentManagement/controller/handler/GlobalExceptionHandler.java:51 | one more element adds ", " and that element to the join |
| ErrorHandler.ReduceIsJoin | src/main/java/raisetech/StudentManagement/controller/handler/GlobalExceptionHandler.java:49-52 | the left fold `(a, b) -> a + ", " + b` is the ", "-join of the list |
| ErrorHandler.ValidationDetail | src/main/java/raisetech/StudentManagement/controller/handler/GlobalExceptionHandler.java:49-52 | the reduced "field: message" list, or the fixed text for none |
| ErrorHandler.Handle | src/main/java/raisetech/StudentManagement/controller/handler/GlobalExceptionHandler.java:26-119 | every response has status "error"; 500 exactly for the general handler |
| ErrorHandler.ValidationDetailSpec | src/main/java/raisetech/StudentManagement/controller/handler/GlobalExceptionHandler.java:45-64 | 400 with "field: message" entries joined by ", ", or the fixed text when there are none |
| ErrorHandler.HandleStatuses | src/main/java/raisetech/StudentManagement/controller/handler/GlobalExceptionHandler.java:26-119 | the whole response per kind: status code, message, detail and exception type; 4xx exactly for the four named kinds |
| Decimal.DigitChar | src/main/java/raisetech/StudentManagement/data/Student.java:32 | a digit value maps to the matching decimal character |
| Decimal.NatToDecimal | src/main/java/raisetech/StudentManagement/data/Student.java:32 | the rendering is a non-empty digit string without a leading zero |
| Decimal.NatToDecimalRoundTrip | src/main/java/raisetech/StudentManagement/data/Student.java:32 | reading the rendering back gives the number |
| Decimal.IntToDecimalInjective | src/main/java/raisetech/StudentManagement/data/Student.java:32 | different integers render differently |
| JsText.Utf16Char | src/main/resources/static/js/student.js:63 | a character takes one code unit in the BMP and two otherwise |
| JsText.Utf16Append | src/main/resources/static/js/student.js:191 | encoding distributes over concatenation |
| JsText.Utf16Bmp | src/main/resources/static/js/student.js:29-33 | a BMP string encodes to its own code points |
| JsText.LeadingWhiteSpace | src/main/resources/static/js/student.js:63 | the length of the maximal whitespace prefix |
| JsText.TrailingWhiteSpace | src/main/resources/static/js/student.js:63 | the length of the maximal whitespace suffix |
| JsText.Trim | src/main/resources/static/js/student.js:63 | `trim()`: drops the leading and trailing whitespace, as the next row states |
| JsText.TrimProperties | src/main/resources/static/js/student.js:63 | `trim()` is empty iff all is whitespace, and otherwise starts and ends with non-whitespace |
| JsText.AsciiLower | src/main/resources/static/js/student.js:147 | lower-casing keeps the length |
| JsText.AsciiLowerIdempotent | src/main/resources/static/js/student.js:147 | lower-casing twice is lower-casing once |
| JsText.Contains | src/main/resources/static/js/student.js:158 | `includes`: the pattern occurs at some position of the text |
| JsText.DigitRun | src/main/resources/static/js/student.js:71 | the longest prefix of digits valid in the radix |
| JsText.ParseInt | src/main/resources/static/js/student.js:71 | `parseInt`: skip leading whitespace, read an optional sign, then the longest digit run; None for NaN |
| JsText.RadixValueOfDecimal | src/main/resources/static/js/student.js:71 | the code units of a decimal string have its value |
| JsText.ParseIntOfDigits | src/main/resources/static/js/student.js:71 | `parseInt` reads a digit string, and one with a leading '-', as its value |
| JsText.PositiveDigits | src/main/resources/static/js/student.js:71 | `parseInt` of a string starting with a digit is its unsigned reading |
| JsText.NegativeDigits | src/main/resources/static/js/student.js:71 | `parseInt` of '-' and digits is the negated value |
| JsText.NoLeadingWhiteSpace | src/main/resources/static/js/student.js:71 | a string starting with a digit or sign is left alone by the whitespace skip |
| JsText.ParseUnsignedOfDigits | src/main/resources/static/js/student.js:71 | an all-digit string is read completely |
| JsText.ParseIntRoundTrip | src/main/resources/static/js/student.js:71 | `parseInt(String(n)) == n` for every integer n |
| JsText.JsDecimalUnits | src/main/resources/static/js/student.js:191 | a rendered number holds only digits and '-' |
| JsText.JsDecimalInjective | src/main/resources/static/js/student.js:191 | different numbers render differently |
| Kana.ReplaceSpaces | src/main/resources/static/js/common.js:34 | each U+0020 becomes U+3000, every other unit is kept, and the length is kept |
| Kana.NormalizeSpaces | src/main/resources/static/js/common.js:32-35 | an absent or empty text gives '', otherwise the space replacement |
| Kana.ReplaceSpacesLeavesNoSpace | src/main/resources/static/js/common.js:34 | no U+0020 is left |
| Kana.ReplaceSpacesIdempotent | src/main/resources/static/js/common.js:34 | replacing twice is replacing once |
| Kana.Katakana | src/main/resources/static/js/common.js:47-60 | the conversion keeps the length |
| Kana.ConvertToKatakana | src/main/resources/static/js/common.js:44-62 | the loop builds the unit-by-unit conversion, and '' for an absent or empty text |
| Kana.KatakanaIdempotent | src/main/resources/static/js/common.js:53-58 | no output unit lies in U+3042..U+3093, so converting twice is converting once |
| Kana.KatakanaKeepsSmallA | src/main/resources/static/js/common.js:53 | U+3041 is outside the range and copied unchanged |
| Kana.SpacesAndKatakanaCommute | src/main/resources/static/js/common.js:86-91 | the two conversions commute |
| Kana.KanaInput | src/main/resources/static/js/common.js:86-91 | the kana field becomes the space replacement of its katakana conversion |
| Kana.KanaFieldValue | src/main/resources/static/js/common.js:86-91 | the space replacement applied after the katakana conversion |
| Kana.KanaFieldValueStable | src/main/resources/static/js/common.js:86-91 | a second input event changes nothing; no space and no shifted hiragana remain |
| CourseDuration.JavaIntroEncoded | src/main/resources/static/js/edit-script.js:11 | the course-name constant is the UTF-16 encoding of 'Java入門' |
| CourseDuration.SpringPracticeEncoded | src/main/resources/static/js/edit-script.js:14 | the course-name constant is the UTF-16 encoding of 'Spring実践' |
| CourseDuration.WebAppEncoded | src/main/resources/static/js/edit-script.js:17 | the course-name constant is the UTF-16 encoding of 'Webアプリ開発' |
| CourseDuration.SwitchMonths | src/main/resources/static/js/edit-script.js:9-23 | the switch gives 3, 6 or 8 months |
| CourseDuration.CourseNamesDistinct | src/main/resources/static/js/edit-script.js:10-19 | the three course names are different |
| CourseDuration.SwitchAgreesWithTable | src/main/resources/static/js/student.js:29-35 | the object lookup with `|| 6` agrees with the switch on every name |
| CourseDuration.TableOnListedNames | src/main/resources/static/js/student.js:29-35 | the table gives 3, 6 and 8 for the three names |
| CourseDuration.EndDateMonths | src/main/resources/static/js/register-script.js:5-38 | nothing is written iff the name or the start date is empty; otherwise the table's months |
| StudentPage.EndDateMonths | src/main/resources/static/js/student.js:10-47 | months are produced iff all three elements exist and both values are non-empty, and follow the switch |
| StudentPage.EmailPatternIff | src/main/resources/static/js/student.js:81-82 | the pattern matches iff there is no whitespace, exactly one '@' after a non-empty local part, and a '.' neither first nor last in the domain |
| StudentPage.MatchHasShape | src/main/resources/static/js/student.js:81 | a match of the pattern has that shape |
| StudentPage.ShapeMatches | src/main/resources/static/js/student.js:81 | a string of that shape matches the pattern |
| StudentPage.SubmitErrors | src/main/resources/static/js/student.js:58-98 | the name, age, email and date errors, in that order |
| StudentPage.ValidateOnSubmit | src/main/resources/static/js/student.js:57-105 | the four straight-line checks collect exactly the specified errors, and submission is allowed iff none were |
| StudentPage.SubmitErrorsSpec | src/main/resources/static/js/student.js:58-98 | each message is present iff its rule fails, in the order name, age, email, dates, at most four |
| StudentPage.EmailErrorsSpec | src/main/resources/static/js/student.js:79-86 | the email error is raised iff the input exists and does not match |
| StudentPage.InConcatenation | src/main/resources/static/js/student.js:58-98 | a message is in the list iff one of the four checks produced it |
| StudentPage.AgeRuleOnNumerals | src/main/resources/static/js/student.js:69-76 | a numeral is rejected iff its value is outside 16..100 |
| StudentPage.AgeRejectsNonNumeric | src/main/resources/static/js/student.js:72 | an empty or non-numeric age is rejected because it parses to NaN |
| StudentPage.RowVisible | src/main/resources/static/js/student.js:149-162 | a row is visible iff an existing cell at index 1, 4 or 5 contains the lower-cased filter |
| StudentPage.FilterStudents | src/main/resources/static/js/student.js:145-170 | each row's visibility is the row rule applied to that row |
| StudentPage.RowVisibleSpec | src/main/resources/static/js/student.js:149-162 | an empty filter shows every row with a column 1; the filter text's case does not matter |
| StudentPage.CountVisible | src/main/resources/static/js/student.js:177 | the number of visible rows is at most the number of rows |
| StudentPage.CountVisibleAll | src/main/resources/static/js/student.js:177-178 | every row is visible iff the visible count equals the total |
| StudentPage.ResultText | src/main/resources/static/js/student.js:190-194 | "検索結果: V件 / 全T件" when the trimmed filter is non-empty, else "全T件" |
| StudentPage.ResultTextReadsBack | src/main/resources/static/js/student.js:190-194 | the text determines the total, and the visible count when the trimmed filter is non-empty |
| EditForm.FieldLabelSpec | src/main/resources/static/js/edit-script.js:144-160 | the 11 listed names get their Japanese label, every other name is returned unchanged |
| EditForm.FieldLabel | src/main/resources/static/js/edit-script.js:144-160 | the listed label of the name, or the name itself when the lookup gives nothing |
| EditForm.Display | src/main/resources/static/js/edit-script.js:127-128 | a shown value is never empty, and a non-empty value is shown unchanged |
| EditForm.RecordOriginals | src/main/resources/static/js/edit-script.js:92-108 | the originals map after visiting the inputs in order |
| EditForm.ChangesOf | src/main/resources/static/js/edit-script.js:110-139 | the changes `checkForChanges` pushes, in input order |
| EditForm.RecordOriginalsSpec | src/main/resources/static/js/edit-script.js:92-108 | a name is recorded iff a non-hidden input has it, with the last such input's value |
| EditForm.ChangesOfSpec | src/main/resources/static/js/edit-script.js:110-139 | at most one change per input, and none iff every non-hidden, recorded input equals its original |
| EditForm.NoChangesAfterInit | src/main/resources/static/js/edit-script.js:92-139 | right after initialisation no changes are reported |
| EditForm.EditPage.constructor | src/main/resources/static/js/edit-script.js:56 | the page starts with no recorded originals |
| EditForm.EditPage.InitializeChangeDetection | src/main/resources/static/js/edit-script.js:92-108 | the inputs are unchanged and their originals are recorded |
| EditForm.EditPage.CheckForChanges | src/main/resources/static/js/edit-script.js:110-139 | the change list the rule defines, with state unchanged |
| EditForm.EditPage.OnNameInput | src/main/resources/static/js/edit-script.js:70-75 | only that input's value changes, by the space replacement, then changes are rechecked |
| EditForm.EditPage.OnKanaInput | src/main/resources/static/js/edit-script.js:78-86 | only that input changes, to katakana and then the space replacement, then changes are rechecked |
| RegisterForm.RegisterPage.constructor | src/main/resources/static/js/register-script.js:45-46 | the page holds the two inputs, or None when absent |
| RegisterForm.RegisterPage.NormalizeField | src/main/resources/static/js/register-script.js:52-62 | an input or blur event replaces the spaces of that field only |
| RegisterForm.RegisterPage.OnSubmit | src/main/resources/static/js/register-script.js:77-85 | both present fields are normalised and contain no U+0020 |
| RegisterForm.NormalizeAgainChangesNothing | src/main/resources/static/js/register-script.js:52-85 | an input, blur or submit after another one changes nothing, and no U+0020 remains |
| RegisterForm.AgeCustomValidity | src/main/resources/static/js/register-script.js:96-103 | the message is either '' or the age error |
| RegisterForm.AgeRulesDiffer | src/main/resources/static/js/register-script.js:97-101 | the error is set iff the value parses and is outside 16..100; NaN clears it although submit rejects it |
| RegisterForm.EmailCustomValidity | src/main/resources/static/js/register-script.js:108-116 | the message is either '' or the email error |
| RegisterForm.EmailCustomValiditySpec | src/main/resources/static/js/register-script.js:110-115 | the error is set iff the value is non-empty and does not match the pattern |

## Left out

- JavaScript `Date` arithmetic (`new Date`, `setMonth`, `toISOString`) depends on the host time zone and on month-overflow rules. The model stops at the months that `calculateEndDate` adds.
- The date comparison of the `student.js` submit handler is a boolean input (`startNotBefore`, `None` when an element is missing).
- `toLowerCase` is modelled for ASCII letters only. Unicode case mapping is not modelled.
- `\s` and `trim()` use the ECMAScript white-space and line-terminator code units of the BMP.
- `parseInt` is modelled with unbounded integers. The rounding of large values to a double is not modelled.
- The Hibernate `@Email` grammar is a parameter `partsOk` of the validity predicate. Only the split at the last '@' and the empty-value rule are modelled.
- Inherited object properties are not modelled. A field name such as `toString` reaching `labels[...]`, `in originalValues` or `courseDurations[...]` is not in the model.
- `HashMap` null keys and values are not modelled. Iteration order is an unspecified order, given as a ghost sequence.
- Controllers, Spring's handler dispatch, logging, `modal.js` and `showNotification` are not modelled.
- DOM and CSS wiring is not modelled. This covers the `changed` class, the HTML of `updateChangeSummary`, `setInitialDateValues`, `initStudentFilter`, `clearFilter` and element creation.
- The enrollment-status mapping in the repository test, and the `StudentService` methods that appear only in tests, are not part of this model.
- SQL execution, transactions and the schema are not modelled. Null list elements are not modelled either.
- The `deleted` default of inserted rows is taken as NULL.
- `Repository.StudentStore.SaveStudent`: the generated id is written back through an out-parameter, not by mutating a shared `Student` object. Aliasing of the argument is not modelled.
- `Repository.StudentStore.GetAllCourses`: the result is computed by insertion on a sequence, not by the database's sort.
- `CourseDuration.EndDateMonths`: the edit and registration scripts throw when an element is missing. That case is not modelled; those scripts' elements are assumed present.
- Field names, input types and labels of the edit page are Dafny strings rather than code-unit sequences.
- `Forms.EmailNeedsAt`: states only part of the `@Email` rule, because the rest of its grammar is abstract.
