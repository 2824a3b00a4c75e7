/**
 * The edit page of edit-script.js: the Japanese labels of the form fields, the change detection
 * that compares every input with the value it had when the page was loaded, and the input handlers
 * of the name and phonetic-name fields. Field names, input types and labels are fixed text of the
 * page and are Dafny strings; the values a user types are UTF-16 code units.
 */
module EditForm {
  import opened Wrappers
  import opened JsText
  import Kana

  /** `getFieldLabel`'s `labels` object. */
  const Labels: map<string, string> := map[
    "name" := "名前",
    "kanaName" := "カナ名",
    "nickname" := "ニックネーム",
    "age" := "年齢",
    "sex" := "性別",
    "area" := "地域",
    "email" := "メールアドレス",
    "courseName" := "コース名",
    "courseStartAt" := "開始日",
    "courseEndAt" := "終了日",
    "remark" := "備考"]

  /** `labels[fieldName] || fieldName`. */
  function FieldLabel(fieldName: string): string {
    if fieldName in Labels && Labels[fieldName] != [] then Labels[fieldName] else fieldName
  }

  /** A listed field gets its label, any other name is shown as it is. */
  lemma FieldLabelSpec(fieldName: string)
    ensures fieldName in Labels ==> FieldLabel(fieldName) == Labels[fieldName] && FieldLabel(fieldName) != fieldName
    ensures fieldName !in Labels ==> FieldLabel(fieldName) == fieldName
  {
  }

  /** One `input`, `select` or `textarea` of the form, in document order. */
  datatype Input = Input(name: string, inputType: string, value: JsString)

  predicate Tracked(input: Input) {
    input.inputType != "hidden"
  }

  /** One entry of the change summary. */
  datatype Change = Change(field: string, original: JsString, current: JsString)

  /** '（空）', shown for an empty value. */
  const EmptyMark: JsString := [0xFF08, 0x7A7A, 0xFF09]

  /** `value || '（空）'`. */
  function Display(value: JsString): (r: JsString)
    ensures r != []
    ensures value != [] ==> r == value
  {
    if value == [] then EmptyMark else value
  }

  /** The originals `initializeChangeDetection` records: every non-hidden input's value under its name, later inputs overriding earlier ones of the same name. */
  function RecordOriginals(inputs: seq<Input>, originals: map<string, JsString>): map<string, JsString> {
    if inputs == [] then originals
    else
      var n := |inputs| - 1;
      var before := RecordOriginals(inputs[..n], originals);
      if Tracked(inputs[n]) then before[inputs[n].name := inputs[n].value] else before
  }

  /** The summary `checkForChanges` collects, in document order. */
  function ChangesOf(inputs: seq<Input>, originals: map<string, JsString>): seq<Change> {
    if inputs == [] then []
    else
      var n := |inputs| - 1;
      var input := inputs[n];
      ChangesOf(inputs[..n], originals)
      + (if Tracked(input) && input.name in originals && originals[input.name] != input.value
         then [Change(FieldLabel(input.name), Display(originals[input.name]), Display(input.value))]
         else [])
  }

  /** A name is recorded exactly when some non-hidden input carries it, and then with the value of the last such input. */
  lemma {:induction false} RecordOriginalsSpec(inputs: seq<Input>, originals: map<string, JsString>, name: string)
    ensures name in RecordOriginals(inputs, originals) <==>
      name in originals || exists i | 0 <= i < |inputs| :: Tracked(inputs[i]) && inputs[i].name == name
    ensures forall i | 0 <= i < |inputs| && Tracked(inputs[i]) && inputs[i].name == name ::
      (forall j | i < j < |inputs| :: !(Tracked(inputs[j]) && inputs[j].name == name)) ==>
      RecordOriginals(inputs, originals)[name] == inputs[i].value
  {
    if inputs != [] {
      var n := |inputs| - 1;
      RecordOriginalsSpec(inputs[..n], originals, name);
      assert forall i | 0 <= i < n :: inputs[..n][i] == inputs[i];
    }
  }

  /**
   * The summary is empty exactly when every non-hidden input with a recorded original still holds
   * it, and it never has more entries than there are inputs.
   */
  lemma {:induction false} ChangesOfSpec(inputs: seq<Input>, originals: map<string, JsString>)
    ensures |ChangesOf(inputs, originals)| <= |inputs|
    ensures ChangesOf(inputs, originals) == [] <==>
      forall i | 0 <= i < |inputs| && Tracked(inputs[i]) && inputs[i].name in originals ::
        originals[inputs[i].name] == inputs[i].value
  {
    if inputs != [] {
      var n := |inputs| - 1;
      ChangesOfSpec(inputs[..n], originals);
      assert forall i | 0 <= i < n :: inputs[..n][i] == inputs[i];
    }
  }

  /**
   * Right after the originals are recorded, nothing is reported as changed, as long as no two
   * non-hidden inputs share a name.
   */
  lemma NoChangesAfterInit(inputs: seq<Input>)
    requires forall i, j | 0 <= i < j < |inputs| && Tracked(inputs[i]) && Tracked(inputs[j]) :: inputs[i].name != inputs[j].name
    ensures ChangesOf(inputs, RecordOriginals(inputs, map[])) == []
  {
    var originals := RecordOriginals(inputs, map[]);
    forall i | 0 <= i < |inputs| && Tracked(inputs[i]) && inputs[i].name in originals
      ensures originals[inputs[i].name] == inputs[i].value
    {
      RecordOriginalsSpec(inputs, map[], inputs[i].name);
    }
    ChangesOfSpec(inputs, originals);
  }

  /** The form of the edit page and the global `originalValues` object. */
  class EditPage {
    var inputs: seq<Input>
    var originalValues: map<string, JsString>

    constructor(inputs: seq<Input>)
      ensures this.inputs == inputs && originalValues == map[]
    {
      this.inputs := inputs;
      originalValues := map[];
    }

    /** `initializeChangeDetection`: records the loaded value of every non-hidden input. */
    method InitializeChangeDetection()
      modifies this
      ensures inputs == old(inputs)
      ensures originalValues == RecordOriginals(inputs, old(originalValues))
    {
      for k := 0 to |inputs|
        invariant inputs == old(inputs)
        invariant originalValues == RecordOriginals(inputs[..k], old(originalValues))
      {
        var input := inputs[k];
        assert inputs[..k + 1][..k] == inputs[..k];
        if input.inputType != "hidden" {
          originalValues := originalValues[input.name := input.value];
        }
      }
      assert inputs[..|inputs|] == inputs;
    }

    /** `checkForChanges`: the summary of the fields whose value differs from the recorded one. */
    method CheckForChanges() returns (changes: seq<Change>)
      ensures changes == ChangesOf(inputs, originalValues)
    {
      changes := [];
      for k := 0 to |inputs|
        invariant changes == ChangesOf(inputs[..k], originalValues)
      {
        var input := inputs[k];
        assert inputs[..k + 1][..k] == inputs[..k];
        if input.inputType != "hidden" && input.name in originalValues {
          var originalValue := originalValues[input.name];
          var currentValue := input.value;
          if originalValue != currentValue {
            changes := changes + [Change(FieldLabel(input.name), Display(originalValue), Display(currentValue))];
          }
        }
      }
      assert inputs[..|inputs|] == inputs;
    }

    /** The `input` handler of the name field: spaces become ideographic, then changes are checked. */
    method OnNameInput(k: nat) returns (changes: seq<Change>)
      requires k < |inputs|
      modifies this
      ensures inputs == old(inputs)[k := old(inputs)[k].(value := Kana.ReplaceSpaces(old(inputs)[k].value))]
      ensures originalValues == old(originalValues)
      ensures changes == ChangesOf(inputs, originalValues)
    {
      inputs := inputs[k := inputs[k].(value := Kana.ReplaceSpaces(inputs[k].value))];
      changes := CheckForChanges();
    }

    /** The `input` handler of the phonetic-name field: katakana first, then ideographic spaces, then the change check. */
    method OnKanaInput(k: nat) returns (changes: seq<Change>)
      requires k < |inputs|
      modifies this
      ensures inputs == old(inputs)[k := old(inputs)[k].(value := Kana.ReplaceSpaces(Kana.Katakana(old(inputs)[k].value)))]
      ensures originalValues == old(originalValues)
      ensures changes == ChangesOf(inputs, originalValues)
    {
      var converted := Kana.ConvertToKatakana(Some(inputs[k].value));
      inputs := inputs[k := inputs[k].(value := Kana.ReplaceSpaces(converted))];
      changes := CheckForChanges();
    }
  }
}
