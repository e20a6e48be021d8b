/** `summarize_text` and `generate_quiz`: the text wrapped between fixed instructions. */
module Prompts {
  import opened Wrappers

  const SummaryPrefix: string :=
    "Please summarize the following document, focusing on key ideas and important points. "
    + "Ensure the summary is clear, concise, and structured with short, readable paragraphs:\n\n"
  const SummarySuffix: string := "\n\nSummary:"

  const QuizPrefix: string :=
    "Based on the following text, please generate a quiz. It can include Multiple Choice "
    + "Questions (MCQs) or mixed-style questions. Focus on important facts and concepts:\n\n"
  const QuizSuffix: string := "\n\nQuiz:"

  const EmptyQuizMessage: string := "No quiz can be generated for empty text."

  /** The text between `prefix` and `suffix`, if `prompt` is made of the three. */
  function Unwrap(prefix: string, suffix: string, prompt: string): (text: Option<string>)
  {
    if |prompt| >= |prefix| + |suffix| && prompt[..|prefix|] == prefix
       && prompt[|prompt| - |suffix|..] == suffix
    then Some(prompt[|prefix|..|prompt| - |suffix|])
    else None
  }

  /** `summarize_text`: the summary instructions, the text verbatim, the closing label. */
  function SummarizeText(text: string): (prompt: string)
    ensures |prompt| == |SummaryPrefix| + |text| + |SummarySuffix|
    ensures Unwrap(SummaryPrefix, SummarySuffix, prompt) == Some(text)
  {
    var prompt := SummaryPrefix + text + SummarySuffix;
    assert prompt[..|SummaryPrefix|] == SummaryPrefix;
    assert prompt[|prompt| - |SummarySuffix|..] == SummarySuffix;
    assert prompt[|SummaryPrefix|..|prompt| - |SummarySuffix|] == text;
    prompt
  }

  /** `generate_quiz`: always one element; for empty text a fixed notice, otherwise the
      quiz instructions, the text verbatim, the closing label. */
  function GenerateQuiz(text: string): (quiz: seq<string>)
    ensures |quiz| == 1
    ensures text == "" ==> quiz[0] == EmptyQuizMessage
    ensures text != "" ==> Unwrap(QuizPrefix, QuizSuffix, quiz[0]) == Some(text)
  {
    if text == "" then [EmptyQuizMessage]
    else
      var prompt := QuizPrefix + text + QuizSuffix;
      assert prompt[..|QuizPrefix|] == QuizPrefix;
      assert prompt[|prompt| - |QuizSuffix|..] == QuizSuffix;
      assert prompt[|QuizPrefix|..|prompt| - |QuizSuffix|] == text;
      [prompt]
  }

  /** Unwrapping succeeds only on a prompt that is prefix, body and suffix, so the
      builders lose nothing: the prompt determines the text. */
  lemma UnwrapInverts(prefix: string, suffix: string, prompt: string)
    requires Unwrap(prefix, suffix, prompt).Some?
    ensures prompt == prefix + Unwrap(prefix, suffix, prompt).value + suffix
  {
    var body := Unwrap(prefix, suffix, prompt).value;
    assert prompt == prompt[..|prefix|] + body + prompt[|prompt| - |suffix|..];
  }

  /** Different texts give different summaries. */
  lemma SummarizeTextInjective(a: string, b: string)
    requires SummarizeText(a) == SummarizeText(b)
    ensures a == b
  {
  }

  /** The notice for empty text is not a quiz prompt, so different texts give different
      quizzes, the empty one included. */
  lemma GenerateQuizInjective(a: string, b: string)
    requires GenerateQuiz(a) == GenerateQuiz(b)
    ensures a == b
  {
    assert Unwrap(QuizPrefix, QuizSuffix, EmptyQuizMessage).None?;
  }
}
