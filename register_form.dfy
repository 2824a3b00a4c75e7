/**
 * The registration page of register-script.js and register-student.js: half-width spaces in the
 * name and phonetic-name fields become ideographic spaces while typing, on leaving the field
 * (register-script.js only) and once more on submit; register-script.js also sets the custom
 * validity messages of the age and email fields. A field missing from the page is `None`.
 */
module RegisterForm {
  import opened Wrappers
  import opened JsText
  import Kana
  import StudentPage

  datatype Field = Name | KanaName

  /** The name and phonetic-name inputs of the registration form. */
  class RegisterPage {
    var name: Option<JsString>
    var kanaName: Option<JsString>

    constructor(name: Option<JsString>, kanaName: Option<JsString>)
      ensures this.name == name && this.kanaName == kanaName
    {
      this.name := name;
      this.kanaName := kanaName;
    }

    /** The value of one field, when the page has it. */
    function Value(field: Field): Option<JsString>
      reads this
    {
      match field
      case Name => name
      case KanaName => kanaName
    }

    /**
     * The `input` handler of either field, and in register-script.js also its `blur` handler:
     * `this.value = this.value.replace(/ /g, '　')`. A missing field has no handler, so nothing changes.
     */
    method NormalizeField(field: Field)
      modifies this
      ensures Value(field) == (if old(Value(field)).Some? then Some(Kana.ReplaceSpaces(old(Value(field)).value)) else None)
      ensures field == Name ==> kanaName == old(kanaName)
      ensures field == KanaName ==> name == old(name)
    {
      match field
      case Name =>
        if name.Some? {
          name := Some(Kana.ReplaceSpaces(name.value));
        }
      case KanaName =>
        if kanaName.Some? {
          kanaName := Some(Kana.ReplaceSpaces(kanaName.value));
        }
    }

    /** The `submit` handler: both present fields are normalised once more, so no half-width space is submitted. */
    method OnSubmit()
      modifies this
      ensures name == (if old(name).Some? then Some(Kana.ReplaceSpaces(old(name).value)) else None)
      ensures kanaName == (if old(kanaName).Some? then Some(Kana.ReplaceSpaces(old(kanaName).value)) else None)
      ensures name.Some? ==> Kana.Space !in name.value
      ensures kanaName.Some? ==> Kana.Space !in kanaName.value
    {
      if name.Some? {
        name := Some(Kana.ReplaceSpaces(name.value));
        Kana.ReplaceSpacesLeavesNoSpace(old(name).value);
      }
      if kanaName.Some? {
        kanaName := Some(Kana.ReplaceSpaces(kanaName.value));
        Kana.ReplaceSpacesLeavesNoSpace(old(kanaName).value);
      }
    }
  }

  /** Normalising a field that was already normalised, on input, blur or submit, changes nothing more. */
  lemma NormalizeAgainChangesNothing(v: JsString)
    ensures Kana.ReplaceSpaces(Kana.ReplaceSpaces(v)) == Kana.ReplaceSpaces(v)
    ensures Kana.Space !in Kana.ReplaceSpaces(v)
  {
    Kana.ReplaceSpacesIdempotent(v);
    Kana.ReplaceSpacesLeavesNoSpace(v);
  }

  /**
   * The custom validity message the age `input` handler sets: `age < 16 || age > 100` for
   * `age = parseInt(value)`; when the parse gives NaN both comparisons are false and the message is cleared.
   */
  function AgeCustomValidity(value: JsString): (message: string)
    ensures message == "" || message == StudentPage.AgeError
  {
    match ParseInt(value)
    case None => ""
    case Some(age) => if age < 16 || age > 100 then StudentPage.AgeError else ""
  }

  /** The live age check agrees with the submit check of student.js except on text that is not a number. */
  lemma AgeRulesDiffer(value: JsString)
    ensures AgeCustomValidity(value) != "" <==> StudentPage.AgeRejected(value) && ParseInt(value).Some?
    ensures ParseInt(value).None? ==> AgeCustomValidity(value) == "" && StudentPage.AgeRejected(value)
  {
    assert StudentPage.AgeError != "";
  }

  /** The custom validity message the email `blur` handler sets: an empty field is not checked. */
  function EmailCustomValidity(value: JsString): (message: string)
    ensures message == "" || message == StudentPage.EmailError
  {
    if value != [] && !StudentPage.EmailPatternMatches(value) then StudentPage.EmailError else ""
  }

  /** The email message is set exactly for a non-empty value outside the pattern. */
  lemma EmailCustomValiditySpec(value: JsString)
    ensures EmailCustomValidity(value) != "" <==> value != [] && !StudentPage.EmailShape(value)
  {
    StudentPage.EmailPatternIff(value);
    assert StudentPage.EmailError != "";
  }
}
