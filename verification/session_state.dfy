/**
 * The session-state callback of the tutoring agent (`store_session_state_callback`,
 * rag/main_agent.py:78-186) as a pure transition `Step(state, events)`.
 *
 * One step does three things. It scans the event log newest-first for the latest
 * retrieval response and keeps a bounded summary of it. It runs the student-info
 * template over every text part of the log, and the last event with a match wins.
 * It then merges both into the state by setting keys that are absent and never
 * overwriting one that is present.
 */
module SessionState {
  import opened Wrappers
  import opened Text
  import opened Template
  import opened Results

  /** A part of an event's content: user or model text, or a tool's function response.
      A response whose payload is not a retrieval response is `Other`. */
  datatype Part = TextPart(text: string) | ResponsePart(response: Response)

  /** An event of the session log; `content` is `None` when the event carries no content. */
  datatype Event = Event(content: Option<seq<Part>>)

  /** What is stored under `rag_results`: the summary record `{summary, count, status: 'success'}`,
      or a retrieval response kept as it came. */
  datatype RagValue = Summary(summary: string, count: nat) | Raw(response: Response)

  /** The session state. Each of the four keys the callback knows is `None` while absent;
      `currentStyle` holds `Some(None)` once the key is present with the value `None`.
      Every other key of the state lives in `others`. */
  datatype State = State(
    ragResults: Option<RagValue>,
    studentInfo: Option<StudentInfo>,
    styleSelected: Option<bool>,
    currentStyle: Option<Option<string>>,
    others: map<string, string>)

  /** The state at the start of a session: no key at all. */
  const EmptyState := State(None, None, None, None, map[])

  /** Longest summary kept, and longest piece taken from each result. */
  const SummaryLimit := 500
  const SnippetLimit := 200
  /** How many results contribute to the summary. */
  const SummaryResults := 3

  // ---------------------------------------------------------------------------
  // Retrieval scan
  // ---------------------------------------------------------------------------

  /** `r.get('text', '')[:200]`: the start of one result's text, empty when it has none. */
  function Snippet(item: ResultItem): (r: string)
    ensures |r| <= SnippetLimit
    ensures item.text.None? ==> r == ""
    ensures item.text.Some? ==> r == Take(item.text.value, SnippetLimit)
  {
    Take(TextOf(item), SnippetLimit)
  }

  /** The snippets of the first three results (of all of them when there are fewer), in order. */
  function Snippets(results: seq<ResultItem>): (r: seq<string>)
    ensures |r| == if |results| < SummaryResults then |results| else SummaryResults
    ensures forall k :: 0 <= k < |r| ==> r[k] == Snippet(results[k])
  {
    var n := if |results| < SummaryResults then |results| else SummaryResults;
    seq(n, k requires 0 <= k < n => Snippet(results[k]))
  }

  /** The stored summary: the snippets joined with single spaces, cut to 500 characters.
      It is the longest prefix of the joined snippets that fits the limit. */
  function Summarize(results: seq<ResultItem>): (r: string)
    ensures |r| <= SummaryLimit
    ensures var joined := Join(" ", Snippets(results));
      |r| <= |joined| && r == joined[..|r|] && (|r| < SummaryLimit ==> r == joined)
  {
    Take(Join(" ", Snippets(results)), SummaryLimit)
  }

  /** What a retrieval response becomes under `rag_results`: a summary counting every
      result when the list is non-empty, the response itself when it is empty. */
  function RagOf(results: seq<ResultItem>, fields: map<string, string>): (v: RagValue)
    ensures |results| > 0 ==> v.Summary? && v.count == |results| && |v.summary| <= SummaryLimit
    ensures |results| > 0 ==> v.summary == Summarize(results)
    ensures |results| == 0 ==> v == Raw(Retrieval(results, fields))
  {
    if |results| > 0 then Summary(Summarize(results), |results|)
    else Raw(Retrieval(results, fields))
  }

  predicate IsRetrieval(p: Part) {
    p.ResponsePart? && p.response.Retrieval?
  }

  /** The retrieval value of the first part that carries a retrieval response. */
  function PartsRetrieval(parts: seq<Part>): Option<RagValue> {
    if parts == [] then None
    else if IsRetrieval(parts[0]) then Some(RagOf(parts[0].response.results, parts[0].response.fields))
    else PartsRetrieval(parts[1..])
  }

  /** The retrieval value one event contributes, if any. */
  function EventRetrieval(e: Event): Option<RagValue> {
    if e.content.None? then None else PartsRetrieval(e.content.value)
  }

  /** The retrieval scan: events from the newest back, stopping at the first one that has
      a retrieval response. */
  function ScanRetrieval(events: seq<Event>): Option<RagValue>
    decreases |events|
  {
    if events == [] then None
    else
      var newest := EventRetrieval(events[|events| - 1]);
      if newest.Some? then newest else ScanRetrieval(events[..|events| - 1])
  }

  // ---------------------------------------------------------------------------
  // Template extractor
  // ---------------------------------------------------------------------------

  /** What the template finds in one part: text parts are searched, other parts give nothing. */
  function PartInfo(p: Part): Option<StudentInfo> {
    if p.TextPart? then Search(p.text) else None
  }

  /** What the template finds in each part of one event, in order. */
  function PartInfos(parts: seq<Part>): (r: seq<Option<StudentInfo>>)
    ensures |r| == |parts|
    ensures forall k :: 0 <= k < |parts| ==> r[k] == PartInfo(parts[k])
  {
    seq(|parts|, k requires 0 <= k < |parts| => PartInfo(parts[k]))
  }

  /** The first present entry of a sequence of findings. */
  function First<T>(xs: seq<Option<T>>): Option<T>
    decreases |xs|
  {
    if xs == [] then None
    else if xs[0].Some? then xs[0]
    else First(xs[1..])
  }

  /** The student info of the first text part of one event that the template matches
      (the loop over the parts stops at the first match). */
  function PartsInfo(parts: seq<Part>): Option<StudentInfo> {
    First(PartInfos(parts))
  }

  function EventInfo(e: Event): Option<StudentInfo> {
    if e.content.None? then None else PartsInfo(e.content.value)
  }

  /** The extractor loop as the code runs it: events oldest first, each matching event
      replacing what an earlier one found. */
  function ExtractFrom(events: seq<Event>, found: Option<StudentInfo>): Option<StudentInfo>
    decreases |events|
  {
    if events == [] then found
    else
      var here := EventInfo(events[0]);
      ExtractFrom(events[1..], if here.Some? then here else found)
  }

  function ExtractInfo(events: seq<Event>): Option<StudentInfo> {
    ExtractFrom(events, None)
  }

  /** What each event of the log matches, oldest first. */
  function Infos(events: seq<Event>): (r: seq<Option<StudentInfo>>)
    ensures |r| == |events|
    ensures forall k :: 0 <= k < |events| ==> r[k] == EventInfo(events[k])
  {
    seq(|events|, k requires 0 <= k < |events| => EventInfo(events[k]))
  }

  /** The newest present entry of a log of findings kept oldest first. */
  function Newest<T>(xs: seq<Option<T>>): Option<T>
    decreases |xs|
  {
    if xs == [] then None
    else if xs[|xs| - 1].Some? then xs[|xs| - 1]
    else Newest(xs[..|xs| - 1])
  }

  /** Reference reading of the extractor: the match of the newest event that has one. */
  function LastInfo(events: seq<Event>): Option<StudentInfo> {
    Newest(Infos(events))
  }

  // ---------------------------------------------------------------------------
  // Merge and step
  // ---------------------------------------------------------------------------

  /** `value` when the key is absent, the present value otherwise. */
  function SetIfAbsent<T>(present: Option<T>, value: T): (r: Option<T>)
    ensures r.Some?
    ensures present.Some? ==> r == present
    ensures present.None? ==> r == Some(value)
  {
    if present.Some? then present else Some(value)
  }

  /** `after` keeps every key of `before` with its value, and every other key untouched. */
  predicate Extends(before: State, after: State) {
    && (before.ragResults.Some? ==> after.ragResults == before.ragResults)
    && (before.studentInfo.Some? ==> after.studentInfo == before.studentInfo)
    && (before.styleSelected.Some? ==> after.styleSelected == before.styleSelected)
    && (before.currentStyle.Some? ==> after.currentStyle == before.currentStyle)
    && after.others == before.others
  }

  /** The merge policy applied to what the scan and the extractor found. With both found,
      each of the four keys is set only if absent; with only a retrieval value, it is
      stored only next to an existing `student_info` and in place of a missing
      `rag_results`; otherwise nothing changes. */
  function Merge(state: State, rag: Option<RagValue>, info: Option<StudentInfo>): (r: State)
    ensures Extends(state, r)
    ensures rag.Some? && info.Some? ==>
      && r.ragResults.Some? && r.studentInfo.Some? && r.styleSelected.Some? && r.currentStyle.Some?
      && (state.ragResults.None? ==> r.ragResults == rag)
      && (state.studentInfo.None? ==> r.studentInfo == info)
      && (state.styleSelected.None? ==> r.styleSelected == Some(false))
      && (state.currentStyle.None? ==> r.currentStyle == Some(None))
    ensures rag.Some? && info.None? ==>
      && r.(ragResults := state.ragResults) == state
      && (r.ragResults.Some? <==> state.ragResults.Some? || state.studentInfo.Some?)
      && (state.studentInfo.Some? && state.ragResults.None? ==> r.ragResults == rag)
    ensures rag.None? ==> r == state
  {
    if rag.Some? && info.Some? then
      state.(ragResults := SetIfAbsent(state.ragResults, rag.value),
             studentInfo := SetIfAbsent(state.studentInfo, info.value),
             styleSelected := SetIfAbsent(state.styleSelected, false),
             currentStyle := SetIfAbsent(state.currentStyle, None))
    else if rag.Some? then
      if state.studentInfo.Some? && state.ragResults.None? then state.(ragResults := rag) else state
    else state
  }

  /** One run of the callback: nothing happens once both `rag_results` and `student_info`
      are present; otherwise the scan and the extractor run over the log and their
      findings are merged. */
  function Step(state: State, events: seq<Event>): (r: State)
    ensures Extends(state, r)
    ensures state.ragResults.Some? && state.studentInfo.Some? ==> r == state
  {
    if state.ragResults.Some? && state.studentInfo.Some? then state
    else Merge(state, ScanRetrieval(events), ExtractInfo(events))
  }
}
