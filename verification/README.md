# PDF text cleaning and prompt building, modelled in Dafny

This project models the pure core of `main.py` of a small Chainlit "PDF summarizer"
app: the function that turns the pages of a PDF into one cleaned string
(`extract_and_clean_text_from_pdf`) and the two prompt builders `summarize_text`
and `generate_quiz`.

## What is modelled

- `PdfExtraction` — the document as the PDF reader delivers it (`PdfDocument`:
  unreadable, or a list of pages each of which gave a string, `None`, or raised).
  Pages without text (`None` or empty) are skipped, the rest are joined with
  `"\n"` in page order and cleaned. An unreadable file, a file with no pages, a page
  whose extraction raises, and a file with no page text all fail, and every failure
  comes out as the one message "Unable to extract text from the PDF. Please upload a
  readable document." (`ExtractRaw` keeps the internal reason,
  `ExtractAndCleanText` is what the caller sees).
- `Lines` — Python's `"\n".join` and `str.split("\n")`: joining the pieces of a split
  gives back any text, and splitting a join gives back any list of newline-free parts.
- `NewlinePass`, `HyphenPass`, `NumberPass` — the three `re.sub` calls. Each is a
  matcher for its pattern at the start of a string, specified against a predicate
  that says what the pattern means (`IsHyphenBreak`, `IsNumberRun`) and choosing the
  split a greedy backtracking engine chooses, plus a left-to-right scanner that
  replaces a match and resumes after it, or copies one character. Matching at the
  start of the remaining suffix is the same as matching inside the whole string,
  because none of the patterns has anchors or look-behind.
- `Stripping` — `str.strip()`.
- `Cleaning` — the three passes and the strip in order.
- `Prompts` — the fixed instruction texts around the input, the empty-input notice of
  `generate_quiz`, and `Unwrap`, which recovers the input from a prompt.

Behaviours of the code worth knowing, all proved:

- The digit pass removes every ASCII digit, including digits inside words
  ("abc123def" becomes "abc def"), although the comment next to it speaks of
  standalone numbers. Whitespace away from digits is kept: "a b 1" becomes "a b ".
- Dehyphenation matches never overlap: "a- b- c" becomes "ab- c", and the result can
  still contain a word-hyphen-space-word sequence.
- A document whose page text is only digits and whitespace (bare page numbers)
  succeeds with the empty string; it does not fail as "no readable text", because
  that check runs before cleaning.

Character classes: `\s` and `str.strip()` use the exact set of Python's
`str.isspace()` (`CharClasses.IsSpace`); `\d` and `\w` are ASCII-only (see Left out).

## Model

| member | source | states |
|---|---|---|
| PdfExtraction.ExtractAndCleanText | main.py:7-41 | fails exactly when the file is unreadable, has no pages, has a page whose extraction raises, or has no page text; every failure carries the single generic message; a success has no newline, no digit and no whitespace at either end |
| PdfExtraction.ExtractRaw | main.py:12-36 | names the internal reason for each failure (reader error, no pages, raising page, no readable text) with each reason's exact condition; a success is the cleaned join of the readable page texts |
| PdfExtraction.CollectPageTexts | main.py:17-21 | the page loop fails exactly when some page's extraction raises; otherwise it yields the readable texts in page order |
| PdfExtraction.ReadableTexts | main.py:18-21 | keeps only non-empty texts; a string is kept exactly when some page has it as non-empty text; the list is empty exactly when no page has text |
| PdfExtraction.ReadableTextsAppend | main.py:18-21 | page order is preserved: the texts of a concatenation of pages are the texts of the parts, concatenated |
| PdfExtraction.ExtractKeepsPageContent | main.py:17-36 | on success, the characters other than whitespace, digits and hyphens are exactly those of the readable pages, in page order |
| PdfExtraction.NumbersOnlyGivesEmptyText | main.py:17-36 | pages holding only digits and whitespace give a successful empty result, not a failure |
| Lines.JoinLines | main.py:26 | the join's length is the parts' total length plus one newline between neighbours, and it starts with the first part |
| Lines.JoinLinesAppend | main.py:26 | for any two non-empty lists of parts, newlines inside parts included, the join of their concatenation is the two joins with one newline between them; with the one-part case this fixes the join's contents |
| Lines.JoinSplitLines | main.py:26 | joining the pieces of a split on newlines gives back every text |
| Lines.SplitJoinLines | main.py:26 | splitting the join of newline-free parts on newlines gives the parts back |
| Lines.FilterJoinLines | main.py:26 | any filter that drops newlines sees only the parts' own characters, in order |
| Lines.JoinLinesMembers | main.py:26 | the join adds no character other than the newline |
| NewlinePass.CollapseNewlines | main.py:30 | the result contains no newline and is no longer than the input |
| NewlinePass.NewlineRunIsOneSpace | main.py:30 | a run of one or more newlines becomes exactly one space |
| NewlinePass.CollapseFixpoint | main.py:30 | the pass changes a text exactly when it contains a newline |
| NewlinePass.CollapseAppend | main.py:30 | the pass works piecewise on any cut that does not split a newline run; with the two lemmas above this determines the pass |
| NewlinePass.CollapseKeepsNonSpace | main.py:30 | the non-whitespace characters survive the pass unchanged and in order |
| NewlinePass.CollapseMembers | main.py:30 | the pass introduces no character other than the space |
| HyphenPass.MatchHyphenBreak | main.py:32 | a match at the start exists exactly when the text splits as word, hyphen, whitespace, word; the split returned is the greedy one (same hyphen and whitespace as any other split, longest second word) |
| HyphenPass.MatchIsMaximalBreak | main.py:32 | a split whose second word cannot be extended is the match returned |
| HyphenPass.JoinHyphenatedWords | main.py:32 | the pass only deletes characters: the result is a subsequence of the input and no longer |
| HyphenPass.JoinKeepsNonHyphenSpace | main.py:32 | everything except hyphens and whitespace survives the pass, in order |
| HyphenPass.JoinShortens | main.py:32 | when some position starts a match, the result is strictly shorter |
| HyphenPass.JoinFixpoint | main.py:32 | the pass changes a text exactly when some position of it starts a match |
| HyphenPass.NonOverlapping | main.py:32 | word-hyphen-space-word-hyphen-space-word joins only the first pair, and the result still contains a match |
| HyphenPass.FirstBreakJoined | main.py:32 | a match followed by the end of the text or by a non-word character becomes the two words run together, the hyphen and the whitespace dropped, and the scan goes on right after the second word |
| HyphenPass.JoinAppend | main.py:32 | the pass works piecewise on a cut right after a character that is not a word character, a hyphen or whitespace, since no match runs across such a character |
| HyphenPass.JoinCopyNonWord | main.py:32 | a character that is not a word character, whitespace and hyphens among them, is copied where it stands and the scan goes on after it |
| HyphenPass.JoinCopyWord | main.py:32 | a word that starts no match is copied where it stands and the scan goes on after it; with the two lemmas above this fixes the output on every text |
| NumberPass.MatchNumberRun | main.py:34 | a match at the start exists exactly when optional whitespace, at least one digit and optional whitespace begin the text; the split returned has the longest digit run and then the longest trailing whitespace |
| NumberPass.ReplaceNumbers | main.py:34 | the result contains no digit, every character is a space or comes from the input, and it is no longer than the input |
| NumberPass.ReplaceKeepsNonDigitSpace | main.py:34 | everything except digits and whitespace survives the pass, in order |
| NumberPass.ReplaceFixpoint | main.py:34 | the pass changes a text exactly when it contains a digit |
| NumberPass.EmbeddedDigits | main.py:34 | digits between two non-digit, non-space words are replaced by one space, so digits inside words are removed too |
| NumberPass.DigitRunIsOneSpace | main.py:34 | whitespace, a digit run and whitespace, as far as the greedy match takes them, become exactly one space, and the scan goes on with what follows |
| NumberPass.ReplaceAppend | main.py:34 | the pass works piecewise on a cut right after a character that is neither a digit nor whitespace, so whitespace away from digits and everything else outside a match is copied where it stands |
| Stripping.Strip | main.py:36 | the result has no whitespace at either end and is a slice of the input with only whitespace cut off on each side |
| Stripping.StripPadded | main.py:36 | a stripped core padded with whitespace on both sides strips back to that core, so the slice is unique |
| Stripping.StripKeepsNonSpace | main.py:36 | stripping keeps every non-whitespace character, in order |
| Cleaning.CleanText | main.py:28-36 | the cleaned text has no newline, no digit, no whitespace at either end, and no character that is neither a space nor from the input |
| Cleaning.CleanKeepsContent | main.py:28-36 | cleaning keeps exactly the characters that are not whitespace, digits or hyphens, in their original order |
| Cleaning.CleanDigitsAndSpace | main.py:30-36 | a text made only of digits and whitespace cleans to the empty string |
| Prompts.SummarizeText | main.py:43-55 | the prompt is the fixed summary instructions, then the text verbatim, then the fixed "Summary:" label; unwrapping it gives the text back |
| Prompts.SummarizeTextInjective | main.py:50 | different texts give different summary prompts |
| Prompts.GenerateQuiz | main.py:57-69 | always one element; for empty text the fixed notice; otherwise the quiz instructions, the text verbatim and the "Quiz:" label, from which the text unwraps back |
| Prompts.GenerateQuizInjective | main.py:61-64 | the empty-text notice is not a quiz prompt, so different texts give different results |

## Left out

- The Chainlit handlers `start`, `handle_message` and `on_create_quiz` (main.py:72-195): asynchronous UI and session plumbing.
- minimal_app.py: a message echo with no logic.
- The PDF reader and `page.extract_text()`: a foreign library. Their outcome is the input value `PdfDocument`.
- The temporary file in `handle_message` and the `print` of the caught exception (main.py:40): I/O.
- The text of the exception that caused a failure: the caller only ever sees the generic message, and `ExtractRaw` keeps just the kind of failure.
- HyphenPass.MatchHyphenBreak: `\w` is ASCII letters, ASCII digits and `_`, while Python's `\w` on `str` also matches non-ASCII letters and digits.
- NumberPass.MatchNumberRun: `\d` is the ASCII digits only, while Python's `\d` on `str` matches every Unicode decimal digit.
