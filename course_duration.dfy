/**
 * The course-name to duration lookup behind `calculateEndDate`: a `switch` in edit-script.js,
 * register-script.js and register-student.js, an object literal in student.js.
 */
module CourseDuration {
  import opened Wrappers
  import opened JsText

  /** The course names, as code units: "Java入門", "Spring実践" and "Webアプリ開発". */
  const JavaIntro: JsString := [0x4A, 0x61, 0x76, 0x61, 0x5165, 0x9580]
  const SpringPractice: JsString := [0x53, 0x70, 0x72, 0x69, 0x6E, 0x67, 0x5B9F, 0x8DF5]
  const WebApp: JsString := [0x57, 0x65, 0x62, 0x30A2, 0x30D7, 0x30EA, 0x958B, 0x767A]

  // The code units above are the UTF-16 encodings of the names as the scripts write them.

  lemma JavaIntroEncoded()
    ensures JavaIntro == Utf16("Java入門")
  {
    Utf16Bmp("Java入門");
  }

  lemma SpringPracticeEncoded()
    ensures SpringPractice == Utf16("Spring実践")
  {
    Utf16Bmp("Spring実践");
  }

  lemma WebAppEncoded()
    ensures WebApp == Utf16("Webアプリ開発")
  {
    Utf16Bmp("Webアプリ開発");
  }

  /** The `switch (courseName)` of the three form scripts. */
  function SwitchMonths(courseName: JsString): (months: nat)
    ensures months == 3 || months == 6 || months == 8
  {
    if courseName == JavaIntro then 3
    else if courseName == SpringPractice then 6
    else if courseName == WebApp then 8
    else 6
  }

  /** The `courseDurations` object of student.js. */
  const DurationTable: map<JsString, nat> :=
    map[JavaIntro := 3, SpringPractice := 6, WebApp := 8]

  /** `courseDurations[courseName] || 6`: a missing (or zero) entry falls back to six months. */
  function TableMonths(courseName: JsString): nat {
    if courseName in DurationTable && DurationTable[courseName] != 0 then DurationTable[courseName] else 6
  }

  /** The three course names differ already in their first letter. */
  lemma CourseNamesDistinct()
    ensures JavaIntro != SpringPractice && JavaIntro != WebApp && SpringPractice != WebApp
  {
    assert JavaIntro[0] == 0x4A && SpringPractice[0] == 0x53 && WebApp[0] == 0x57;
  }

  /** The object lookup of student.js and the `switch` of the other scripts give the same months for every name. */
  lemma SwitchAgreesWithTable(courseName: JsString)
    ensures SwitchMonths(courseName) == TableMonths(courseName)
  {
    CourseNamesDistinct();
    if courseName in DurationTable {
      TableOnListedNames();
    } else {
      assert courseName != JavaIntro && courseName != SpringPractice && courseName != WebApp;
    }
  }

  lemma TableOnListedNames()
    ensures TableMonths(JavaIntro) == 3 && TableMonths(SpringPractice) == 6 && TableMonths(WebApp) == 8
  {
    CourseNamesDistinct();
  }

  /**
   * The months `calculateEndDate` adds in the three form scripts, or `None` when it returns
   * without writing an end date because the course name or the start date is empty.
   */
  function EndDateMonths(courseName: JsString, startDate: JsString): (r: Option<nat>)
    ensures r.None? <==> courseName == [] || startDate == []
    ensures r.Some? ==> r.value == TableMonths(courseName)
  {
    if courseName == [] || startDate == [] then None
    else
      SwitchAgreesWithTable(courseName);
      Some(SwitchMonths(courseName))
  }
}
