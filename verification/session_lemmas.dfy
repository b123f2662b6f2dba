/**
 * Properties of the session-state step: the bounds of the stored summary, the
 * newest-first retrieval scan, the last-match-wins extractor checked against a
 * reference reading, and the first-write-wins merge (it only adds keys, and
 * running it twice is running it once).
 */
module SessionLemmas {
  import opened Wrappers
  import opened Text
  import opened Template
  import opened SessionState
  import opened Results

  // ---------------------------------------------------------------------------
  // Summary
  // ---------------------------------------------------------------------------

  lemma JoinThree(sep: string, a: string, b: string, c: string)
    ensures Join(sep, [a, b, c]) == a + sep + (b + sep + c)
  {
    assert [a, b, c][1..] == [b, c];
    assert [b, c][1..] == [c];
    assert Join(sep, [b, c]) == b + sep + c;
  }

  /** When the first three results each have at least 200 characters of text, the summary
      is exactly 500 characters long and starts with the first 200 of the first result. */
  lemma SummaryIsFull(results: seq<ResultItem>)
    requires |results| >= SummaryResults
    requires forall k :: 0 <= k < SummaryResults ==>
      results[k].text.Some? && |results[k].text.value| >= SnippetLimit
    ensures |Summarize(results)| == SummaryLimit
    ensures Summarize(results)[..SnippetLimit] == results[0].text.value[..SnippetLimit]
  {
    var sn := Snippets(results);
    assert sn == [sn[0], sn[1], sn[2]];
    JoinThree(" ", sn[0], sn[1], sn[2]);
    var joined := Join(" ", sn);
    assert |joined| == 3 * SnippetLimit + 2;
    assert joined[..SnippetLimit] == sn[0];
  }

  /** Five results of 300 characters each: a 500-character summary that counts all five. */
  lemma SummaryOfFiveLongResults(results: seq<ResultItem>, fields: map<string, string>)
    requires |results| == 5
    requires forall k :: 0 <= k < 5 ==> results[k].text.Some? && |results[k].text.value| == 300
    ensures RagOf(results, fields) == Summary(Summarize(results), 5)
    ensures |RagOf(results, fields).summary| == SummaryLimit
  {
    SummaryIsFull(results);
  }

  /** With at most three results, each text within 200 characters and their join within
      500, nothing is cut: the summary is the texts joined with spaces. */
  lemma SummaryIsWholeJoin(results: seq<ResultItem>)
    requires |results| <= SummaryResults
    requires forall k :: 0 <= k < |results| ==> |TextOf(results[k])| <= SnippetLimit
    requires |Join(" ", Texts(results))| <= SummaryLimit
    ensures Summarize(results) == Join(" ", Texts(results))
  {
    assert Snippets(results) == Texts(results);
  }

  // ---------------------------------------------------------------------------
  // Retrieval scan
  // ---------------------------------------------------------------------------

  /** The part `PartsRetrieval` uses is the first part carrying a retrieval response. */
  lemma {:induction false} PartsRetrievalIsFirst(parts: seq<Part>) returns (k: nat)
    ensures PartsRetrieval(parts).None? <==> forall j :: 0 <= j < |parts| ==> !IsRetrieval(parts[j])
    ensures PartsRetrieval(parts).Some? ==>
      && k < |parts| && IsRetrieval(parts[k])
      && PartsRetrieval(parts) == Some(RagOf(parts[k].response.results, parts[k].response.fields))
      && forall j :: 0 <= j < k ==> !IsRetrieval(parts[j])
  {
    if parts == [] || IsRetrieval(parts[0]) {
      k := 0;
    } else {
      var k' := PartsRetrievalIsFirst(parts[1..]);
      k := k' + 1;
      assert PartsRetrieval(parts) == PartsRetrieval(parts[1..]);
      if PartsRetrieval(parts).Some? {
        assert parts[k] == parts[1..][k'];
        forall j | 0 <= j < k ensures !IsRetrieval(parts[j]) {
          if j > 0 {
            assert parts[j] == parts[1..][j - 1];
          }
        }
      }
      forall j | 1 <= j < |parts| ensures parts[j] == parts[1..][j - 1] { }
    }
  }

  lemma {:induction false} ScanNewer(older: seq<Event>, newer: seq<Event>)
    requires ScanRetrieval(newer).Some?
    ensures ScanRetrieval(older + newer) == ScanRetrieval(newer)
    decreases |newer|
  {
    var all := older + newer;
    assert all[|all| - 1] == newer[|newer| - 1];
    assert all[..|all| - 1] == older + newer[..|newer| - 1];
    if EventRetrieval(newer[|newer| - 1]).None? {
      ScanNewer(older, newer[..|newer| - 1]);
    }
  }

  /** Newer events without a retrieval response do not hide an older one. */
  lemma {:induction false} ScanSkipsQuiet(older: seq<Event>, newer: seq<Event>)
    requires forall k :: 0 <= k < |newer| ==> EventRetrieval(newer[k]).None?
    ensures ScanRetrieval(older + newer) == ScanRetrieval(older)
    decreases |newer|
  {
    if newer == [] {
      assert older + newer == older;
    } else {
      var all := older + newer;
      assert all[|all| - 1] == newer[|newer| - 1];
      assert all[..|all| - 1] == older + newer[..|newer| - 1];
      ScanSkipsQuiet(older, newer[..|newer| - 1]);
    }
  }

  /** The scan's answer is the retrieval value of the newest event that has one, and
      there is none exactly when no event has one. */
  lemma {:induction false} ScanIsNewest(events: seq<Event>) returns (i: nat)
    ensures ScanRetrieval(events).None? <==>
      forall j :: 0 <= j < |events| ==> EventRetrieval(events[j]).None?
    ensures ScanRetrieval(events).Some? ==>
      && i < |events| && ScanRetrieval(events) == EventRetrieval(events[i])
      && forall j :: i < j < |events| ==> EventRetrieval(events[j]).None?
    decreases |events|
  {
    if events == [] {
      i := 0;
    } else {
      var n := |events| - 1;
      var front := events[..n];
      if EventRetrieval(events[n]).Some? {
        i := n;
      } else {
        i := ScanIsNewest(front);
        forall j | 0 <= j < n ensures events[j] == front[j] { }
      }
    }
  }

  // ---------------------------------------------------------------------------
  // Template extractor
  // ---------------------------------------------------------------------------

  /** `First` returns the first present entry, and nothing exactly when none is present. */
  lemma {:induction false} FirstIsFirst<T>(xs: seq<Option<T>>) returns (k: nat)
    ensures First(xs).None? <==> forall j :: 0 <= j < |xs| ==> xs[j].None?
    ensures First(xs).Some? ==>
      && k < |xs| && First(xs) == xs[k]
      && forall j :: 0 <= j < k ==> xs[j].None?
    decreases |xs|
  {
    if xs == [] || xs[0].Some? {
      k := 0;
    } else {
      var k' := FirstIsFirst(xs[1..]);
      k := k' + 1;
      forall j | 1 <= j < |xs| ensures xs[j] == xs[1..][j - 1] { }
    }
  }

  /** The part `PartsInfo` uses is the first text part the template matches. */
  lemma PartsInfoIsFirst(parts: seq<Part>) returns (k: nat)
    ensures PartsInfo(parts).None? <==>
      forall j :: 0 <= j < |parts| ==> !parts[j].TextPart? || Search(parts[j].text).None?
    ensures PartsInfo(parts).Some? ==>
      && k < |parts| && parts[k].TextPart? && PartsInfo(parts) == Search(parts[k].text)
      && forall j :: 0 <= j < k ==> !parts[j].TextPart? || Search(parts[j].text).None?
  {
    k := FirstIsFirst(PartInfos(parts));
  }

  /** Everything an event yields is a well-formed record. */
  lemma EventInfoWellFormed(e: Event)
    ensures EventInfo(e).Some? ==> WellFormed(EventInfo(e).value)
  {
    if EventInfo(e).Some? {
      var k := PartsInfoIsFirst(e.content.value);
      SearchWellFormed(e.content.value[k].text);
    }
  }

  /** Prepending an older entry matters only when no newer entry is present. */
  lemma {:induction false} NewestCons<T>(x: Option<T>, xs: seq<Option<T>>)
    ensures Newest([x] + xs) == if Newest(xs).Some? then Newest(xs) else x
    decreases |xs|
  {
    var all := [x] + xs;
    if xs == [] {
      assert all[..0] == [];
    } else {
      var n := |xs| - 1;
      assert all[|all| - 1] == xs[n];
      assert all[..|all| - 1] == [x] + xs[..n];
      if xs[n].None? {
        NewestCons(x, xs[..n]);
      }
    }
  }

  /** `Newest` returns the newest present entry, and nothing exactly when none is present. */
  lemma {:induction false} NewestIsNewest<T>(xs: seq<Option<T>>) returns (i: nat)
    ensures Newest(xs).None? <==> forall j :: 0 <= j < |xs| ==> xs[j].None?
    ensures Newest(xs).Some? ==>
      && i < |xs| && Newest(xs) == xs[i]
      && forall j :: i < j < |xs| ==> xs[j].None?
    decreases |xs|
  {
    if xs == [] {
      i := 0;
    } else {
      var n := |xs| - 1;
      var front := xs[..n];
      if xs[n].Some? {
        i := n;
      } else {
        i := NewestIsNewest(front);
        forall j | 0 <= j < n ensures xs[j] == front[j] { }
      }
    }
  }

  lemma LastInfoCons(e: Event, events: seq<Event>)
    ensures LastInfo([e] + events) ==
      if LastInfo(events).Some? then LastInfo(events) else EventInfo(e)
  {
    assert Infos([e] + events) == [EventInfo(e)] + Infos(events);
    NewestCons(EventInfo(e), Infos(events));
  }

  /** The forward loop with a carried value agrees with the newest-first reading. */
  lemma {:induction false} ExtractFromIsLast(events: seq<Event>, found: Option<StudentInfo>)
    ensures ExtractFrom(events, found) == if LastInfo(events).Some? then LastInfo(events) else found
    decreases |events|
  {
    if events != [] {
      var here := EventInfo(events[0]);
      var rest := events[1..];
      ExtractFromIsLast(rest, if here.Some? then here else found);
      assert events == [events[0]] + rest;
      LastInfoCons(events[0], rest);
    }
  }

  /** The extractor returns the match of the newest event that has one. */
  lemma ExtractIsLast(events: seq<Event>)
    ensures ExtractInfo(events) == LastInfo(events)
  {
    ExtractFromIsLast(events, None);
  }

  /** A new event with a match replaces whatever was extracted before; one without a
      match leaves it. */
  lemma ExtractLastWins(events: seq<Event>, e: Event)
    ensures ExtractInfo(events + [e]) ==
      if EventInfo(e).Some? then EventInfo(e) else ExtractInfo(events)
  {
    ExtractIsLast(events + [e]);
    ExtractIsLast(events);
    var xs := Infos(events);
    assert Infos(events + [e]) == xs + [EventInfo(e)];
    assert (xs + [EventInfo(e)])[..|xs|] == xs;
  }

  /** The extractor's answer is the match of the newest matching event, and it finds
      nothing exactly when no event matches. */
  lemma LastInfoIsNewest(events: seq<Event>) returns (i: nat)
    ensures LastInfo(events).None? <==>
      forall j :: 0 <= j < |events| ==> EventInfo(events[j]).None?
    ensures LastInfo(events).Some? ==>
      && i < |events| && LastInfo(events) == EventInfo(events[i])
      && forall j :: i < j < |events| ==> EventInfo(events[j]).None?
  {
    i := NewestIsNewest(Infos(events));
  }

  /** Every record the extractor stores is well formed: non-empty letter/digit/letter
      header fields and a one-line question without outer whitespace. */
  lemma ExtractWellFormed(events: seq<Event>)
    ensures ExtractInfo(events).Some? ==> WellFormed(ExtractInfo(events).value)
  {
    ExtractIsLast(events);
    var i := LastInfoIsNewest(events);
    if ExtractInfo(events).Some? {
      EventInfoWellFormed(events[i]);
    }
  }

  // ---------------------------------------------------------------------------
  // Merge and step
  // ---------------------------------------------------------------------------

  /** Merging the same findings twice is merging them once. */
  lemma MergeIdempotent(state: State, rag: Option<RagValue>, info: Option<StudentInfo>)
    ensures Merge(Merge(state, rag, info), rag, info) == Merge(state, rag, info)
  {
  }

  /** Running the callback twice over the same log is running it once. */
  lemma StepIdempotent(state: State, events: seq<Event>)
    ensures Step(Step(state, events), events) == Step(state, events)
  {
    var once := Step(state, events);
    if !(state.ragResults.Some? && state.studentInfo.Some?) {
      MergeIdempotent(state, ScanRetrieval(events), ExtractInfo(events));
    }
  }

  /** A log without any retrieval response leaves the state as it is, whatever it matches. */
  lemma StepWithoutRetrieval(state: State, events: seq<Event>)
    requires forall j :: 0 <= j < |events| ==> EventRetrieval(events[j]).None?
    ensures Step(state, events) == state
  {
    var _ := ScanIsNewest(events);
  }

  /** A stored `student_info` is never replaced, whatever a later log holds. */
  lemma StepKeepsStudentInfo(state: State, events: seq<Event>, info: StudentInfo)
    requires state.studentInfo == Some(info)
    ensures Step(state, events).studentInfo == Some(info)
  {
  }

  /** From an empty state, a log with both findings stores exactly those two values and
      the two defaults. */
  lemma StepFromEmpty(events: seq<Event>)
    requires ScanRetrieval(events).Some? && ExtractInfo(events).Some?
    ensures Step(EmptyState, events) ==
      State(ScanRetrieval(events), ExtractInfo(events), Some(false), Some(None), map[])
  {
  }

  /** Once both keys are present, no later run changes anything. */
  lemma StepSettled(state: State, events: seq<Event>, later: seq<Event>)
    requires ScanRetrieval(events).Some? && ExtractInfo(events).Some?
    ensures Step(Step(state, events), later) == Step(state, events)
  {
  }

  // ---------------------------------------------------------------------------
  // A first turn, end to end
  // ---------------------------------------------------------------------------

  /** A first turn: the student's message is the template filled in with `info` (for
      example `ICSE-grade-8-Science. Question: Why does ice float?`), and the retrieval
      tool then answers with a non-empty list. The step stores both, the summary counts
      every result, and the two style keys get their defaults. */
  lemma FirstTurn(info: StudentInfo, results: seq<ResultItem>, fields: map<string, string>)
    requires WellFormed(info) && |results| > 0
    ensures var message := Event(Some([TextPart(Render(info))]));
      var reply := Event(Some([ResponsePart(Retrieval(results, fields))]));
      Step(EmptyState, [message, reply]) ==
        State(Some(Summary(Summarize(results), |results|)), Some(info), Some(false), Some(None), map[])
  {
    var message := Event(Some([TextPart(Render(info))]));
    var reply := Event(Some([ResponsePart(Retrieval(results, fields))]));
    FirstTurnFindings(info, message, Retrieval(results, fields));
    StepFromEmpty([message, reply]);
  }

  lemma FirstTurnFindings(info: StudentInfo, message: Event, response: Response)
    requires WellFormed(info) && message == Event(Some([TextPart(Render(info))]))
    requires response.Retrieval?
    ensures var reply := Event(Some([ResponsePart(response)]));
      && ExtractInfo([message, reply]) == Some(info)
      && ScanRetrieval([message, reply]) == Some(RagOf(response.results, response.fields))
  {
    var reply := Event(Some([ResponsePart(response)]));
    SearchRender(info);
    assert EventInfo(message) == Some(info);
    ResponseHasNoInfo(response);
    ExtractLastWins([message], reply);
    ExtractLastWins([], message);
    assert [message, reply] == [message] + [reply];
    assert [message] == [] + [message];
  }

  /** An event whose only part is a function response matches no template. */
  lemma ResponseHasNoInfo(response: Response)
    ensures EventInfo(Event(Some([ResponsePart(response)]))) == None
  {
    var xs := PartInfos([ResponsePart(response)]);
    assert xs == [None];
    assert xs[1..] == [];
    assert First(xs) == First(xs[1..]);
  }

  /** The message of the example above fills the template with well-formed fields. */
  lemma IcseMessage()
    ensures WellFormed(StudentInfo("ICSE", "8", "Science", "Why does ice float?"))
  {
    var info := StudentInfo("ICSE", "8", "Science", "Why does ice float?");
    assert AllIn(info.board, Letter) && AllIn(info.grade, Digit) && AllIn(info.subject, Letter);
    assert AllIn(info.question, NotNewline);
  }
}
