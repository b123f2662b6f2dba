# Tutoring-agent session state and explanation tool, in Dafny

This project models the two pieces of plain code inside a retrieval-augmented tutoring
agent. Everything else in the system is language-model behaviour.

1. **The session-state callback** (`store_session_state_callback`, `rag/main_agent.py`).
   It runs after every agent turn and does three things:
   - it scans the session's event log, newest event first, for the latest retrieval-tool
     response, and keeps a bounded summary of it;
   - it searches every text part of the log for the student's opening message
     `BOARD-grade-GRADE-SUBJECT. Question: QUESTION`;
   - it merges what it found into the session state without overwriting any key that is
     already there.

   The model is the pure transition `SessionState.Step(state, events)`.
2. **The explanation tool** (`generate_explanation`, `rag/tools/explanation_tools.py`).
   It turns a retrieval response, a free-text style and an optional question into the
   prompt for the explanation agent. The model is `Explanation.GenerateExplanation`.

Modules:

- `Wrappers`: the `Option` type, which stands for Python's `None` and for absent keys.
- `Results`: the retrieval tool's response (a dict with or without a `results` list) and
  `result.get("text", "")`. Both the callback and the explanation tool read it.
- `Text`: the Python `str` operations the code uses, over `seq<char>`: `isspace`,
  `lower`, `strip`, `s[:n]`, `in`, `split`, `join`.
- `Template`: the student-info regular expression
  `([A-Za-z]+)-grade-(\d+)-([A-Za-z]+)\.\s*Question:\s*(.+)` with `re.IGNORECASE`, written
  as a matcher over ASCII text.
  - `MatchAt(s, i)` is the pattern anchored at `i`, with the greedy choices Python's
    engine makes.
  - `Search(s)` is `re.search`: the leftmost position that matches.
  - `Render(info)` writes the message in its documented form. `SearchRender` proves that
    the extractor reads every well-formed record back from it.
- `SessionState`: events, parts, responses and the state, plus:
  - the retrieval scan and its summary;
  - the extractor loop, with a newest-first reference reading `LastInfo`;
  - the first-write-wins merge, and `Step`.
- `SessionLemmas`: properties of the above, ending with a first turn worked end to end.
- `Explanation`: style classification, language extraction, context, prompt and the
  tool's two outcomes.
- `ExplanationLemmas`: properties of the explanation tool.

Three behaviours of the code are easy to misread:

- **Which matching message wins.** The extractor's `break` (`rag/main_agent.py:153`)
  leaves only the loop over one event's parts. The loop over events goes on, so the
  **last** event with a matching text part decides `student_info`. Within one event, the
  first matching part decides. `SessionLemmas.ExtractLastWins` states this.
- **When the raw response is stored.** A retrieval response is any dict with a `results`
  key. It is stored as it came only when its `results` list is **empty**
  (`rag/main_agent.py:115-124`). It is not stored raw merely for lacking a `results` key:
  a response without that key is not a retrieval response at all, and the scan passes
  over it.
- **When the defaults are written.** `style_selected = False` and `current_style = None`
  are written only when both values were found in the same run
  (`rag/main_agent.py:156-171`). The "retrieval only" path (`rag/main_agent.py:179-184`)
  writes `rag_results` alone.

## Model

| member | source | states |
|---|---|---|
| Template.SearchRender | rag/main_agent.py:138-151 | For any well-formed record, the extractor reads back exactly that board, grade, subject and question from `BOARD-grade-GRADE-SUBJECT. Question: QUESTION`. |
| Template.SearchIsLeftmost | rag/main_agent.py:140-141 | `re.search` finds nothing exactly when the pattern matches at no position. Otherwise it returns the groups of a match at a position before which nothing matches. |
| Template.SearchWellFormed | rag/main_agent.py:140-151 | Every extracted record has non-empty ASCII-letter board and subject and a non-empty digit grade. Its question holds no line break and no outer whitespace, because `(.+)` stops at a newline and the group is stripped. |
| Template.MatchSpansFacts | rag/main_agent.py:140 | A match lays out the whole pattern: letters, `-grade-` in any case, digits, `-`, letters, `.`, whitespace, `Question:` in any case, whitespace, then a non-empty capture that holds no newline and runs to a newline or the end of the text. |
| Template.QuestionStartIsGreatest | rag/main_agent.py:140 | The greedy `\s*` before `(.+)` backtracks to the last whitespace position from which `.+` can still match. No match exists when there is no such position. |
| Text.LastPieceFollowsSep | rag/tools/explanation_tools.py:57 | When the separator occurs, `split(sep)[-1]` is everything after its last occurrence: an occurrence after which the separator does not occur again. |
| Text.JoinSplit | rag/tools/explanation_tools.py:57 | Joining the pieces of `split(sep)` with `sep` gives back the text, so the split loses nothing. |
| Text.JoinLayout | rag/main_agent.py:117 | In `sep.join(xs)` every piece occurs whole at its offset, each but the last is followed by `sep`, and the last ends the text. |
| SessionState.Summarize | rag/main_agent.py:117-119 | The summary is at most 500 characters and a prefix of the space-joined snippets. When it is shorter than 500 it is the whole join. |
| SessionState.Snippets | rag/main_agent.py:117 | Takes the first three results, or all of them when there are fewer, in order. Each is its text cut to 200 characters, or empty when the text is missing. |
| SessionState.RagOf | rag/main_agent.py:115-124 | A non-empty results list becomes a summary whose count is the number of all results. An empty list is stored as the response itself. |
| SessionLemmas.SummaryIsFull | rag/main_agent.py:117-120 | With three or more results of at least 200 characters, the summary is exactly 500 characters and starts with the first 200 of the first result. |
| SessionLemmas.SummaryIsWholeJoin | rag/main_agent.py:117-119 | With at most three results, each text within 200 characters and their space-join within 500, the summary is the texts joined with spaces, uncut. |
| SessionLemmas.PartsRetrievalIsFirst | rag/main_agent.py:105-126 | Within one event, the value comes from the first part that carries a retrieval response. It is absent exactly when no part carries one. |
| SessionLemmas.ScanIsNewest | rag/main_agent.py:102-128 | The scan returns the value of the newest event that has a retrieval response. It finds nothing exactly when no event has one. |
| SessionLemmas.ScanNewer | rag/main_agent.py:102-128 | A newer retrieval response hides every older one. |
| SessionLemmas.ScanSkipsQuiet | rag/main_agent.py:102-128 | Newer events without a retrieval response do not change what the scan finds. |
| SessionLemmas.PartsInfoIsFirst | rag/main_agent.py:134-153 | Within one event, the record comes from the first text part the template matches. There is none exactly when no text part matches. |
| SessionLemmas.ExtractIsLast | rag/main_agent.py:132-153 | The forward loop that overwrites on every match agrees with the newest-first reading `LastInfo`. |
| SessionLemmas.ExtractLastWins | rag/main_agent.py:132-153 | Appending an event that matches replaces the extracted record. Appending one that does not leaves it. |
| SessionLemmas.LastInfoIsNewest | rag/main_agent.py:132-153 | The extracted record is that of the newest matching event. Nothing is extracted exactly when no event matches. |
| SessionLemmas.ExtractWellFormed | rag/main_agent.py:132-151 | Every record the extractor returns is well formed. |
| SessionState.Merge | rag/main_agent.py:156-184 | Present keys are never changed. With both findings, all four keys end up present, and each one that was absent gets its value: the retrieval value, the record, `style_selected` false, `current_style` None. With only a retrieval value, only `rag_results` can change. It ends up present iff it or `student_info` was present before, and when it was absent next to a present `student_info` it becomes the value found. Without a retrieval value nothing changes. |
| SessionState.Step | rag/main_agent.py:89-184 | One run never removes or changes a present key. Once `rag_results` and `student_info` are both present it changes nothing. |
| SessionLemmas.MergeIdempotent | rag/main_agent.py:156-184 | Merging the same findings twice is merging them once. |
| SessionLemmas.StepIdempotent | rag/main_agent.py:89-184 | Running the callback twice over the same log is running it once. |
| SessionLemmas.StepWithoutRetrieval | rag/main_agent.py:155-184 | A log without a retrieval response leaves the state unchanged, even when it holds a student message. |
| SessionLemmas.StepKeepsStudentInfo | rag/main_agent.py:165-167 | A stored `student_info` is never replaced by a later extraction. |
| SessionLemmas.StepFromEmpty | rag/main_agent.py:156-171 | From an empty state, a log with both findings yields exactly those two values and the two defaults. |
| SessionLemmas.StepSettled | rag/main_agent.py:89-93 | After a run that found both values, no later run on any log changes the state. |
| SessionLemmas.FirstTurn | rag/main_agent.py:78-184 | A student message in template form followed by a non-empty retrieval response stores the record and a summary counting every result, and sets `style_selected` false and `current_style` None. |
| Explanation.StyleOf | rag/tools/explanation_tools.py:45-61 | On the lower-cased, stripped style, the checks run in priority order. "example" wins over "memory"/"mnemonic", which wins over "story"/"narrative", which wins over "language" or a listed Indian language name. Anything else falls back to examples. Each branch is stated as an if-and-only-if. |
| Explanation.GenerateExplanation | rag/tools/explanation_tools.py:29-86 | It fails exactly when the results list is missing or empty, with the fixed message and error. Otherwise it echoes the style as given, counts every result, and carries the context and a prompt built from the style's instruction and the question. |
| Explanation.QuestionOf | rag/tools/explanation_tools.py:67 | A missing or empty question becomes "General explanation". Any other question is used as given. |
| Explanation.ResultsOf | rag/tools/explanation_tools.py:31 | A dict without a `results` key reads as an empty list. |
| ExplanationLemmas.StyleIgnoresCaseAndSpace | rag/tools/explanation_tools.py:45-58 | Case and outer whitespace never change the chosen style. The only difference is a language taken verbatim because the request holds no "in ". |
| ExplanationLemmas.LanguageAfterLastIn | rag/tools/explanation_tools.py:53-58 | In the language style, when "in " occurs, the language is the stripped text after an occurrence of it: it holds no further "in " and has no outer whitespace. Otherwise it is the request exactly as given. |
| ExplanationLemmas.DefaultIsExample | rag/tools/explanation_tools.py:11-48 | The default style "with example" selects the example instruction. |
| ExplanationLemmas.InstructionDeterminesStyle | rag/tools/explanation_tools.py:47-61 | No two styles, and no two language names, produce the same instruction. |
| ExplanationLemmas.ContextSplits | rag/tools/explanation_tools.py:40-42 | When no text holds a line break, splitting the context at the blank lines gives back the results' texts, with a missing text read as empty. |
| ExplanationLemmas.ContextLayout | rag/tools/explanation_tools.py:40-42 | For any texts, the context holds each result's text whole, in order, separated by blank lines, with the last text ending it. |
| ExplanationLemmas.ReadyContextCounts | rag/tools/explanation_tools.py:40-84 | When no result text holds a line break, the context of a success splits back into exactly `results_count` texts, those of the results in order. |
| ExplanationLemmas.PromptCarries | rag/tools/explanation_tools.py:64-77 | The prompt contains the instruction, then the question, then the context, each whole and in that order. |
| ExplanationLemmas.NoQuestionIsGeneral | rag/tools/explanation_tools.py:67 | No question and an empty question give the same outcome, whose prompt asks for a general explanation. |

## Left out

- Printing and logging (`print` throughout the callback). They have no effect on state.
- The blanket `except` blocks (`rag/main_agent.py:185-186`,
  `rag/tools/explanation_tools.py:88-93`). No modelled operation raises. Inputs that
  would make Python raise are outside the data model: a result whose `text` is `None`,
  a result that is not a dict, and an explanation-tool argument that is not a dict.
  For the last, `rag_results.get` raises and the tool returns its `except` record
  (`error_message` and "Failed to generate explanation: …") carrying Python's exception
  text. In the explanation tool, `Other` stands only for a dict without `results`.
- `hasattr`-based duck typing. A part is either text or a function response, and a
  response payload is either a dict with `results` (`Retrieval`) or anything else
  (`Other`). The
  agent framework's part objects are not part of this model. If every part exposes a
  `text` attribute that is `None` on function-response parts, then `re.search` would
  raise on such a part and the `except` would end the run having stored nothing. The
  model searches text parts only.
- The session and callback-context plumbing, and `async`. The state is a value, and
  "key absent" is `None` in the corresponding field.
- Other state keys. They are carried in `others` with values abstracted to strings, and
  are never touched.
- The constant `status` fields (`'success'` in the summary and the tool result, `'error'`
  in the failure). The datatype constructor stands for them.
- Non-ASCII text. Case-insensitive matching, `\d`, `\s`, `str.lower` and `str.strip` are
  modelled on ASCII only. Python also folds and classifies Unicode characters.
- The agent definitions and prompt texts (`rag/main_agent.py:27-75`,
  `rag/explanation_agent.py`, `rag/rag_agent.py`), the memory services
  (`rag/memory_config.py`, `rag/in_memory_config.py`) and the `FunctionTool` wrapper
  (`rag/tools/explanation_tools.py:97`). Their behaviour belongs to the language model or
  the framework.
- Later updates of `style_selected` and `current_style`. The language model makes them,
  not code.
- SessionLemmas.FirstTurn: stated for a message built by `Render`, that is, for every
  well-formed record rather than for one literal message. `SessionLemmas.IcseMessage`
  proves the record behind the documented example
  `ICSE-grade-8-Science. Question: Why does ice float?` well formed, so the lemma covers
  that message; that `Render` spells exactly this string is not proved.
- ExplanationLemmas.ContextSplits: stated only for texts without line breaks. A text that
  itself contains a blank line cannot be told apart from the separator.
  `ExplanationLemmas.ContextLayout` describes the context for every input.
- ExplanationLemmas.ReadyContextCounts: stated only for texts without line breaks, for
  the same reason. Retrieved passages often hold line breaks; for them,
  `ExplanationLemmas.ContextLayout` places each text in the context instead.
