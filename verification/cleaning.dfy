/** The text cleaning of `extract_and_clean_text_from_pdf`: the three substitutions in
    order, then `strip()`. */
module Cleaning {
  import opened CharClasses
  import opened Sequences
  import opened NewlinePass
  import opened HyphenPass
  import opened NumberPass
  import opened Stripping

  /** Collapse newline runs, join hyphenated words, replace digit runs, strip. The result
      has no newline, no digit, and no whitespace at either end. */
  function CleanText(text: string): (r: string)
    ensures forall i :: 0 <= i < |r| ==> r[i] != '\n' && !IsDigit(r[i])
    ensures IsStripped(r)
    ensures forall c :: c in r ==> c == ' ' || c in text
  {
    var joined := JoinHyphenatedWords(CollapseNewlines(text));
    var replaced := ReplaceNumbers(joined);
    assert '\n' !in replaced && forall c :: c in replaced ==> c == ' ' || c in text by {
      SubsequenceMembers(joined, CollapseNewlines(text));
      CollapseMembers(text);
    }
    var r := Strip(replaced);
    assert forall c :: c in r ==> c in replaced;
    r
  }

  /** Cleaning keeps exactly the characters that are not whitespace, digits or hyphens,
      in their original order: nothing else is added, dropped or reordered. */
  lemma {:induction false} CleanKeepsContent(text: string)
    ensures Filter(IsContent, CleanText(text)) == Filter(IsContent, text)
  {
    var collapsed := CollapseNewlines(text);
    var joined := JoinHyphenatedWords(collapsed);
    var replaced := ReplaceNumbers(joined);
    var stripped := Strip(replaced);
    CollapseKeepsNonSpace(text);
    FilterNarrow(NotSpace, IsContent, collapsed);
    FilterNarrow(NotSpace, IsContent, text);
    JoinKeepsNonHyphenSpace(collapsed);
    FilterNarrow(NotHyphenOrSpace, IsContent, joined);
    FilterNarrow(NotHyphenOrSpace, IsContent, collapsed);
    ReplaceKeepsNonDigitSpace(joined);
    FilterNarrow(NotDigitOrSpace, IsContent, replaced);
    FilterNarrow(NotDigitOrSpace, IsContent, joined);
    StripKeepsNonSpace(replaced);
    FilterNarrow(NotSpace, IsContent, stripped);
    FilterNarrow(NotSpace, IsContent, replaced);
  }

  /** A text of digits and whitespace alone cleans to the empty text. */
  lemma {:induction false} CleanDigitsAndSpace(text: string)
    requires forall c :: c in text ==> IsDigit(c) || IsSpace(c)
    ensures CleanText(text) == ""
  {
    var r := CleanText(text);
    forall i | 0 <= i < |r| ensures IsSpace(r[i]) {
      assert r[i] in r;
    }
  }
}
