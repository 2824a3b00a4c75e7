/**
 * The input normalisation of common.js: half-width spaces become ideographic spaces, and in the
 * phonetic-name field hiragana become katakana first.
 */
module Kana {
  import opened Wrappers
  import opened JsText

  const Space: CodeUnit := 0x20
  const IdeographicSpace: CodeUnit := 0x3000

  /** The converted range runs from あ (U+3042) to ん (U+3093); its katakana lie 96 units higher. */
  const HiraganaFirst: CodeUnit := 12354
  const HiraganaLast: CodeUnit := 12435
  const KatakanaOffset: int := 96

  /** `v.replace(/ /g, '　')`. */
  function ReplaceSpaces(v: JsString): (r: JsString)
    ensures |r| == |v|
    ensures forall i | 0 <= i < |v| :: r[i] == (if v[i] == Space then IdeographicSpace else v[i])
  {
    if v == [] then [] else [if v[0] == Space then IdeographicSpace else v[0]] + ReplaceSpaces(v[1..])
  }

  /** `normalizeSpaces(text)`: an absent text is treated as the empty one. */
  function NormalizeSpaces(text: Option<JsString>): (r: JsString)
    ensures r == ReplaceSpaces(text.GetOr([]))
  {
    match text
    case None => []
    case Some(v) => if v == [] then [] else ReplaceSpaces(v)
  }

  /** No half-width space survives the replacement. */
  lemma ReplaceSpacesLeavesNoSpace(v: JsString)
    ensures Space !in ReplaceSpaces(v)
  {
  }

  lemma ReplaceSpacesIdempotent(v: JsString)
    ensures ReplaceSpaces(ReplaceSpaces(v)) == ReplaceSpaces(v)
  {
  }

  /** The unit `convertToKatakana` writes for one input unit. */
  function KatakanaUnit(u: CodeUnit): CodeUnit {
    if HiraganaFirst <= u <= HiraganaLast then u + KatakanaOffset else u
  }

  /** What `convertToKatakana` computes, unit by unit. */
  function Katakana(v: JsString): (r: JsString)
    ensures |r| == |v|
  {
    seq(|v|, i requires 0 <= i < |v| => KatakanaUnit(v[i]))
  }

  /** `convertToKatakana(text)`: the loop that accumulates `result`. */
  method ConvertToKatakana(text: Option<JsString>) returns (result: JsString)
    ensures result == Katakana(text.GetOr([]))
  {
    if text.None? || text.value == [] {
      return [];
    }
    var t := text.value;
    result := [];
    for i := 0 to |t|
      invariant result == Katakana(t[..i])
    {
      var code := t[i];
      if HiraganaFirst <= code && code <= HiraganaLast {
        result := result + [code + KatakanaOffset];
      } else {
        result := result + [t[i]];
      }
    }
    assert t[..|t|] == t;
  }

  /** Converted text contains no unit of the converted range, so converting again changes nothing. */
  lemma KatakanaIdempotent(v: JsString)
    ensures forall i | 0 <= i < |v| :: !(HiraganaFirst <= Katakana(v)[i] <= HiraganaLast)
    ensures Katakana(Katakana(v)) == Katakana(v)
  {
  }

  /** The small ぁ (U+3041) lies below the converted range and is copied unchanged. */
  lemma KatakanaKeepsSmallA()
    ensures Katakana([0x3041]) == [0x3041]
  {
  }

  /** Neither step touches the other's units, so the order of the two steps does not matter. */
  lemma SpacesAndKatakanaCommute(v: JsString)
    ensures ReplaceSpaces(Katakana(v)) == Katakana(ReplaceSpaces(v))
  {
  }

  /** The value the phonetic-name field gets on each `input` event. */
  function KanaFieldValue(v: JsString): JsString {
    NormalizeSpaces(Some(Katakana(v)))
  }

  /** The `input` handler of the phonetic-name field: convert, then replace spaces. */
  method KanaInput(value: JsString) returns (newValue: JsString)
    ensures newValue == KanaFieldValue(value)
  {
    var converted := ConvertToKatakana(Some(value));
    newValue := NormalizeSpaces(Some(converted));
  }

  /**
   * Input events fire on every keystroke and process the whole value again: text that has been
   * processed once is a fixed point, and holds neither half-width spaces nor convertible hiragana.
   */
  lemma KanaFieldValueStable(v: JsString)
    ensures KanaFieldValue(KanaFieldValue(v)) == KanaFieldValue(v)
    ensures Space !in KanaFieldValue(v)
    ensures forall i | 0 <= i < |KanaFieldValue(v)| :: !(HiraganaFirst <= KanaFieldValue(v)[i] <= HiraganaLast)
  {
    var w := KanaFieldValue(v);
    ReplaceSpacesLeavesNoSpace(Katakana(v));
    SpacesAndKatakanaCommute(Katakana(v));
    KatakanaIdempotent(v);
    KatakanaIdempotent(ReplaceSpaces(Katakana(v)));
    assert Katakana(w) == w;
    ReplaceSpacesIdempotent(Katakana(v));
  }
}
