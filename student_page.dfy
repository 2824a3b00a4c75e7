/**
 * The rules of student.js: the end-date months, the checks of the submit handler, the row filter
 * of the student list and the text that reports its result. A missing DOM element is `None`.
 */
module StudentPage {
  import opened Wrappers
  import opened JsText
  import CourseDuration
  import Seqs

  /**
   * `calculateEndDate`: the months it adds, or `None` when it returns early because an element is
   * missing or the course name or the start date is empty.
   */
  function EndDateMonths(courseName: Option<JsString>, courseStartAt: Option<JsString>, courseEndAtPresent: bool): (r: Option<nat>)
    ensures r.Some? <==> courseName.Some? && courseStartAt.Some? && courseEndAtPresent && courseName.value != [] && courseStartAt.value != []
    ensures r.Some? ==> r.value == CourseDuration.SwitchMonths(courseName.value)
  {
    if courseName.None? || courseStartAt.None? || !courseEndAtPresent then None
    else if courseName.value == [] || courseStartAt.value == [] then None
    else
      CourseDuration.SwitchAgreesWithTable(courseName.value);
      Some(CourseDuration.TableMonths(courseName.value))
  }

  // The email pattern /^[^\s@]+@[^\s@]+\.[^\s@]+$/.

  predicate PatternUnit(u: CodeUnit) {
    !IsWhiteSpace(u) && u != 0x40
  }

  /** `[^\s@]+`. */
  predicate Run(s: JsString) {
    |s| > 0 && forall i | 0 <= i < |s| :: PatternUnit(s[i])
  }

  /** `emailPattern.test(s)`: an '@' at `a` and a '.' at `b` cut `s` into three runs. */
  predicate EmailPatternMatches(s: JsString) {
    exists a, b | 0 < a < b < |s| - 1 ::
      s[a] == 0x40 && s[b] == 0x2E && Run(s[..a]) && Run(s[a + 1..b]) && Run(s[b + 1..])
  }

  /**
   * The same condition in words: no white space, exactly one '@' and not at the start, and a '.' in
   * the domain that is neither its first nor its last unit.
   */
  predicate EmailShape(s: JsString) {
    && (forall i | 0 <= i < |s| :: !IsWhiteSpace(s[i]))
    && exists a | 0 < a < |s| ::
         && s[a] == 0x40
         && (forall i | 0 <= i < |s| && i != a :: s[i] != 0x40)
         && exists b | a + 1 < b < |s| - 1 :: s[b] == 0x2E
  }

  lemma EmailPatternIff(s: JsString)
    ensures EmailPatternMatches(s) <==> EmailShape(s)
  {
    if EmailPatternMatches(s) {
      var a, b :| 0 < a < b < |s| - 1 && s[a] == 0x40 && s[b] == 0x2E
        && Run(s[..a]) && Run(s[a + 1..b]) && Run(s[b + 1..]);
      MatchHasShape(s, a, b);
    }
    if EmailShape(s) {
      var a :| 0 < a < |s| && s[a] == 0x40 && (forall i | 0 <= i < |s| && i != a :: s[i] != 0x40)
        && exists b | a + 1 < b < |s| - 1 :: s[b] == 0x2E;
      var b :| a + 1 < b < |s| - 1 && s[b] == 0x2E;
      ShapeMatches(s, a, b);
    }
  }

  lemma MatchHasShape(s: JsString, a: nat, b: nat)
    requires 0 < a < b < |s| - 1 && s[a] == 0x40 && s[b] == 0x2E
    requires Run(s[..a]) && Run(s[a + 1..b]) && Run(s[b + 1..])
    ensures EmailShape(s)
  {
    forall i | 0 <= i < |s| ensures !IsWhiteSpace(s[i]) && (i != a ==> s[i] != 0x40) {
      if i < a {
        assert s[i] == s[..a][i];
      } else if a < i < b {
        assert s[i] == s[a + 1..b][i - a - 1];
      } else if b < i {
        assert s[i] == s[b + 1..][i - b - 1];
      }
    }
    assert a + 1 < b;
  }

  lemma ShapeMatches(s: JsString, a: nat, b: nat)
    requires a + 1 < b < |s| - 1 && s[a] == 0x40 && s[b] == 0x2E && 0 < a
    requires forall i | 0 <= i < |s| :: !IsWhiteSpace(s[i])
    requires forall i | 0 <= i < |s| && i != a :: s[i] != 0x40
    ensures EmailPatternMatches(s)
  {
    assert Run(s[..a]);
    assert Run(s[a + 1..b]);
    assert Run(s[b + 1..]);
  }

  const NameError: string := "名前は2文字以上で入力してください"
  const AgeError: string := "年齢は16歳以上100歳以下で入力してください"
  const EmailError: string := "正しいメールアドレスの形式で入力してください"
  const DateError: string := "終了日は開始日より後の日付を入力してください"

  /** `name.value.trim().length < 2` (in code units). */
  predicate NameTooShort(v: JsString) {
    |Trim(v)| < 2
  }

  /** `isNaN(ageValue) || ageValue < 16 || ageValue > 100` for `ageValue = parseInt(v)`. */
  predicate AgeRejected(v: JsString) {
    match ParseInt(v)
    case None => true
    case Some(n) => n < 16 || n > 100
  }

  function NameErrors(name: Option<JsString>): seq<string> {
    if name.Some? && NameTooShort(name.value) then [NameError] else []
  }

  function AgeErrors(age: Option<JsString>): seq<string> {
    if age.Some? && AgeRejected(age.value) then [AgeError] else []
  }

  function EmailErrors(email: Option<JsString>): seq<string> {
    if email.Some? && !EmailPatternMatches(email.value) then [EmailError] else []
  }

  function DateErrors(startNotBefore: Option<bool>): seq<string> {
    if startNotBefore == Some(true) then [DateError] else []
  }

  /**
   * The messages the submit handler collects, in its order. `startNotBefore` is `None` when a date
   * field is missing, otherwise the outcome of `start >= end`, which the model takes as given.
   */
  function SubmitErrors(name: Option<JsString>, age: Option<JsString>, email: Option<JsString>,
                        startNotBefore: Option<bool>): seq<string>
  {
    NameErrors(name) + AgeErrors(age) + EmailErrors(email) + DateErrors(startNotBefore)
  }

  /** The `submit` handler: `isValid` is cleared, and submission prevented, by each failed check. */
  method ValidateOnSubmit(name: Option<JsString>, age: Option<JsString>, email: Option<JsString>,
                          startNotBefore: Option<bool>)
    returns (isValid: bool, errors: seq<string>)
    ensures errors == SubmitErrors(name, age, email, startNotBefore)
    ensures isValid <==> errors == []
  {
    isValid := true;
    errors := [];
    if name.Some? && NameTooShort(name.value) {
      errors := errors + [NameError];
      isValid := false;
    }
    assert errors == NameErrors(name) && (isValid <==> errors == []);
    if age.Some? {
      if AgeRejected(age.value) {
        errors := errors + [AgeError];
        isValid := false;
      }
    }
    assert errors == NameErrors(name) + AgeErrors(age) && (isValid <==> errors == []);
    if email.Some? {
      if !EmailPatternMatches(email.value) {
        errors := errors + [EmailError];
        isValid := false;
      }
    }
    assert errors == NameErrors(name) + AgeErrors(age) + EmailErrors(email) && (isValid <==> errors == []);
    if startNotBefore.Some? {
      if startNotBefore.value {
        errors := errors + [DateError];
        isValid := false;
      }
    }
  }

  /** Which check produced which message: each message appears exactly when its check fails. */
  lemma SubmitErrorsSpec(name: Option<JsString>, age: Option<JsString>, email: Option<JsString>,
                         startNotBefore: Option<bool>)
    ensures NameError in SubmitErrors(name, age, email, startNotBefore) <==> name.Some? && NameTooShort(name.value)
    ensures AgeError in SubmitErrors(name, age, email, startNotBefore) <==> age.Some? && AgeRejected(age.value)
    ensures EmailError in SubmitErrors(name, age, email, startNotBefore) <==> email.Some? && !EmailShape(email.value)
    ensures DateError in SubmitErrors(name, age, email, startNotBefore) <==> startNotBefore == Some(true)
    ensures |SubmitErrors(name, age, email, startNotBefore)| <= 4
  {
    assert NameError[0] == '名' && AgeError[0] == '年' && EmailError[0] == '正' && DateError[0] == '終';
    var n, a, e, d := NameErrors(name), AgeErrors(age), EmailErrors(email), DateErrors(startNotBefore);
    InConcatenation(n, a, e, d);
    EmailErrorsSpec(email);
  }

  lemma EmailErrorsSpec(email: Option<JsString>)
    ensures EmailErrors(email) == [] || EmailErrors(email) == [EmailError]
    ensures EmailErrors(email) == [EmailError] <==> email.Some? && !EmailShape(email.value)
  {
    if email.Some? {
      EmailPatternIff(email.value);
    }
  }

  lemma InConcatenation(n: seq<string>, a: seq<string>, e: seq<string>, d: seq<string>)
    ensures forall m :: m in n + a + e + d <==> m in n || m in a || m in e || m in d
  {
  }

  /** A numeral is accepted exactly when it denotes an age from 16 to 100. */
  lemma AgeRuleOnNumerals(n: int)
    ensures AgeRejected(JsDecimal(n)) <==> n < 16 || n > 100
  {
    ParseIntRoundTrip(n);
  }

  /** An empty age field, and one that does not start with digits, is rejected as NaN. */
  lemma AgeRejectsNonNumeric()
    ensures AgeRejected([])
    ensures AgeRejected([0x61, 0x62, 0x63])
  {
    var abc: JsString := [0x61, 0x62, 0x63];
    assert LeadingWhiteSpace(abc) == 0;
    assert WithoutSign(abc) == abc;
    assert DigitRun(abc, 10) == 0;
  }

  /** The name, email and area columns. */
  const SearchColumns: seq<nat> := [1, 4, 5]

  predicate CellMatches(cells: seq<JsString>, column: nat, searchText: JsString) {
    column < |cells| && Contains(AsciiLower(cells[column]), searchText)
  }

  /** A row stays visible when one of its search cells contains the lower-cased filter. */
  predicate RowVisible(cells: seq<JsString>, filterText: JsString) {
    exists k | 0 <= k < |SearchColumns| :: CellMatches(cells, SearchColumns[k], AsciiLower(filterText))
  }

  /** `filterStudents`: the `display` decision for every row, by the two nested `forEach` loops. */
  method FilterStudents(rows: seq<seq<JsString>>, filterText: JsString) returns (visible: seq<bool>)
    ensures |visible| == |rows|
    ensures forall i | 0 <= i < |rows| :: visible[i] == RowVisible(rows[i], filterText)
  {
    var searchText := AsciiLower(filterText);
    visible := [];
    for r := 0 to |rows|
      invariant |visible| == r
      invariant forall i | 0 <= i < r :: visible[i] == RowVisible(rows[i], filterText)
    {
      var cells := rows[r];
      var found := false;
      for k := 0 to |SearchColumns|
        invariant found <==> exists k' | 0 <= k' < k :: CellMatches(cells, SearchColumns[k'], searchText)
      {
        var columnIndex := SearchColumns[k];
        if columnIndex < |cells| {
          var cellText := AsciiLower(cells[columnIndex]);
          if Contains(cellText, searchText) {
            found := true;
          }
        }
      }
      visible := visible + [found];
    }
  }

  /**
   * An empty filter keeps exactly the rows that have a name cell, and the filter is
   * case-insensitive for ASCII letters.
   */
  lemma RowVisibleSpec(cells: seq<JsString>, filterText: JsString)
    ensures RowVisible(cells, []) <==> |cells| > 1
    ensures RowVisible(cells, AsciiLower(filterText)) == RowVisible(cells, filterText)
  {
    AsciiLowerIdempotent(filterText);
    if |cells| > 1 {
      assert OccursAt(AsciiLower(cells[1]), [], 0);
      assert CellMatches(cells, SearchColumns[0], AsciiLower([]));
    }
  }

  /** The number of rows the filter left visible. */
  function CountVisible(visible: seq<bool>): (n: nat)
    ensures n <= |visible|
  {
    if visible == [] then 0 else (if visible[0] then 1 else 0) + CountVisible(visible[1..])
  }

  /** The visible count reaches the total exactly when no row is hidden. */
  lemma {:induction false} CountVisibleAll(visible: seq<bool>)
    ensures CountVisible(visible) == |visible| <==> forall i | 0 <= i < |visible| :: visible[i]
  {
    if visible != [] {
      CountVisibleAll(visible[1..]);
      if forall i | 0 <= i < |visible| :: visible[i] {
        assert forall i | 0 <= i < |visible[1..]| :: visible[1..][i] == visible[i + 1];
      } else if visible[0] {
        var i :| 0 <= i < |visible| && !visible[i];
        assert !visible[1..][i - 1];
      }
    }
  }

  /** `updateFilterResults`: "検索結果: V件 / 全T件" for a non-blank filter, else "全T件". */
  function ResultText(filterText: JsString, visibleCount: nat, total: nat): JsString {
    if Trim(filterText) != [] then
      Utf16("検索結果: ") + (JsDecimal(visibleCount) + (Utf16("件 / 全") + (JsDecimal(total) + Utf16("件"))))
    else
      Utf16("全") + (JsDecimal(total) + Utf16("件"))
  }

  /** The text states the counts unambiguously: equal texts report equal counts. */
  lemma ResultTextReadsBack(filterText: JsString, v1: nat, t1: nat, v2: nat, t2: nat)
    requires ResultText(filterText, v1, t1) == ResultText(filterText, v2, t2)
    ensures t1 == t2
    ensures Trim(filterText) != [] ==> v1 == v2
  {
    var ken := Utf16("件");
    assert ken == [0x4EF6];
    var d1, d2, e1, e2 := JsDecimal(v1), JsDecimal(v2), JsDecimal(t1), JsDecimal(t2);
    JsDecimalUnits(v1);
    JsDecimalUnits(v2);
    JsDecimalUnits(t1);
    JsDecimalUnits(t2);
    if Trim(filterText) != [] {
      var p, q := Utf16("検索結果: "), Utf16("件 / 全");
      assert q[0] == 0x4EF6;
      var r1, r2 := q + (e1 + ken), q + (e2 + ken);
      Seqs.PrefixCancel(p, d1 + r1, d2 + r2);
      Seqs.PrefixBeforeSeparator(d1, r1, d2, r2, 0x4EF6);
      JsDecimalInjective(v1, v2);
      Seqs.PrefixCancel(q, e1 + ken, e2 + ken);
    } else {
      Seqs.PrefixCancel(Utf16("全"), e1 + ken, e2 + ken);
    }
    Seqs.PrefixBeforeSeparator(e1, ken, e2, ken, 0x4EF6);
    JsDecimalInjective(t1, t2);
  }
}
