/**
 * The explanation tool (`generate_explanation`, rag/tools/explanation_tools.py:9-93).
 * It takes a retrieval response, a free-text style and an optional question. It joins
 * the texts of all results into one context, sorts the style into one of four
 * instructions by a fixed priority of substring tests, and assembles the prompt the
 * explanation agent is given. With no results it answers with an error instead.
 */
module Explanation {
  import opened Wrappers
  import opened Text
  import opened Results

  /** The four explanation styles; `Language` carries the language named in the request. */
  datatype Style = Example | Memory | Story | Language(name: string)

  /** What the tool returns: the error record (status `error`), or the success record
      (status `success`) with the echoed style, the prompt, the context and the count. */
  datatype Outcome =
    | Failed(message: string, error: string)
    | Ready(style: string, prompt: string, context: string, count: nat, message: string)

  /** The style the tool is called with when the caller gives none. */
  const DefaultStyle := "with example"

  /** The question used when the caller gives none, or an empty one. */
  const DefaultQuestion := "General explanation"

  /** The language names that select the language style even without the word "language". */
  const LanguageNames := ["hindi", "tamil", "telugu", "bengali", "marathi", "gujarati",
                          "kannada", "malayalam", "odia", "punjabi", "urdu"]

  /** The marker before a language name, as in "in hindi". */
  const InMarker := "in "

  const NoResultsMessage := "No RAG results available to generate explanation"
  const NoResultsError := "Empty results"

  /** The instructions of the first three styles: each opens with "Explain with" or
      "Explain using" and its key word, then the rest of the sentence. */
  const ExampleInstruction :=
    "Explain with" + " clear, practical examples. Use real-world scenarios and step-by-step examples."
  const MemoryInstruction :=
    "Explain using " + "memory"
    + " techniques, mnemonic devices, acronyms, or memory aids. Create memorable associations."
  const StoryInstruction :=
    "Explain using " + "an"
    + " engaging story or narrative. Use characters and scenarios to illustrate the concept."

  /** The fixed lines of the prompt, each continuation line indented by eight spaces as in
      the tool's triple-quoted template. */
  const PromptOpening := "\n        Based on the following educational content, provide an explanation "
  const PromptQuestion := "\n        \n        Question: "
  const PromptContent := "\n        \n        Content from textbook:\n        "
  const PromptClosing :=
    "\n        \n        Please provide a comprehensive explanation that:\n"
    + "        1. Is accurate and based on the provided content\n"
    + "        2. Follows the requested explanation style\n"
    + "        3. Is appropriate for the student's grade level\n"
    + "        4. Is clear, engaging, and educational\n        "

  // ---------------------------------------------------------------------------
  // Style
  // ---------------------------------------------------------------------------

  predicate NamesLanguage(s: string) {
    exists k :: 0 <= k < |LanguageNames| && Contains(s, LanguageNames[k])
  }

  /** The language a language-style request names: what follows the last "in " of the
      normalised style, stripped, or the style exactly as given when there is no "in ". */
  function LanguageOf(style: string, lowered: string): string {
    if Contains(lowered, InMarker) then Strip(LastPiece(lowered, InMarker)) else style
  }

  /** The style a request asks for, tested on its lower-cased and stripped form in the order
      example, memory, story, language; anything else falls back to examples. */
  function StyleOf(style: string): (r: Style)
    ensures var l := Strip(Lower(style));
      && (r.Example? <==>
            Contains(l, "example")
            || !(Contains(l, "memory") || Contains(l, "mnemonic")
                 || Contains(l, "story") || Contains(l, "narrative")
                 || Contains(l, "language") || NamesLanguage(l)))
      && (r.Memory? <==>
            !Contains(l, "example") && (Contains(l, "memory") || Contains(l, "mnemonic")))
      && (r.Story? <==>
            && !Contains(l, "example") && !Contains(l, "memory") && !Contains(l, "mnemonic")
            && (Contains(l, "story") || Contains(l, "narrative")))
      && (r.Language? <==>
            && !Contains(l, "example") && !Contains(l, "memory") && !Contains(l, "mnemonic")
            && !Contains(l, "story") && !Contains(l, "narrative")
            && (Contains(l, "language") || NamesLanguage(l)))
      && (r.Language? ==> r.name == LanguageOf(style, l))
  {
    var lowered := Strip(Lower(style));
    if Contains(lowered, "example") then Example
    else if Contains(lowered, "memory") || Contains(lowered, "mnemonic") then Memory
    else if Contains(lowered, "story") || Contains(lowered, "narrative") then Story
    else if Contains(lowered, "language") || NamesLanguage(lowered) then Language(LanguageOf(style, lowered))
    else Example
  }

  /** The instruction sentence for a style. */
  function Instruction(s: Style): string {
    match s
    case Example => ExampleInstruction
    case Memory => MemoryInstruction
    case Story => StoryInstruction
    case Language(name) =>
      "Explain in " + name + " language. Use culturally appropriate examples and natural language flow."
  }

  // ---------------------------------------------------------------------------
  // Context and prompt
  // ---------------------------------------------------------------------------

  const ContextSeparator := "\n\n"

  /** The context handed to the model: every result's text, separated by a blank line. */
  function Context(results: seq<ResultItem>): string {
    Join(ContextSeparator, Texts(results))
  }

  /** The question put in the prompt. */
  function QuestionOf(question: Option<string>): (q: string)
    ensures question.Some? && question.value != "" ==> q == question.value
    ensures question.None? || question.value == "" ==> q == DefaultQuestion
  {
    if question.Some? && question.value != "" then question.value else DefaultQuestion
  }

  function Prompt(instruction: string, question: string, context: string): string {
    PromptOpening + instruction + PromptQuestion + question + PromptContent + context + PromptClosing
  }

  /** `rag_results.get("results", [])`: the `results` list of the argument dict; a dict
      without that key (`Other`) reads as an empty list. */
  function ResultsOf(ragResults: Response): (r: seq<ResultItem>)
    ensures ragResults.Retrieval? ==> r == ragResults.results
    ensures ragResults.Other? ==> r == []
  {
    if ragResults.Retrieval? then ragResults.results else []
  }

  /** The tool: an error when there are no results; otherwise the success record, which
      echoes the style as given, counts every result and carries the prompt built from
      the style's instruction, the question and the context. */
  function GenerateExplanation(ragResults: Response, style: string, question: Option<string>): (r: Outcome)
    ensures r.Failed? <==> ResultsOf(ragResults) == []
    ensures r.Failed? ==> r == Failed(NoResultsMessage, NoResultsError)
    ensures r.Ready? ==>
      && r.style == style
      && r.count == |ResultsOf(ragResults)| > 0
      && r.context == Context(ResultsOf(ragResults))
      && r.prompt == Prompt(Instruction(StyleOf(style)), QuestionOf(question), r.context)
      && r.message == "Explanation ready to be generated in '" + style + "' style"
  {
    var results := ResultsOf(ragResults);
    if results == [] then Failed(NoResultsMessage, NoResultsError)
    else
      var context := Context(results);
      Ready(style, Prompt(Instruction(StyleOf(style)), QuestionOf(question), context),
            context, |results|, "Explanation ready to be generated in '" + style + "' style")
  }
}
