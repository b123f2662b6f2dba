/**
 * The student-info template extractor of the session-state callback
 * (rag/main_agent.py:140-151): a case-insensitive search for
 *
 *     ([A-Za-z]+)-grade-(\d+)-([A-Za-z]+)\.\s*Question:\s*(.+)
 *
 * written as a hand-made matcher over ASCII text. `MatchAt(s, i)` is the regex
 * anchored at position `i` (with the greedy choices Python's engine makes),
 * and `Search(s)` is `re.search`: the match at the leftmost position that has one.
 */
module Template {
  import opened Wrappers
  import opened Text

  /** The `student_info` record: board, grade, subject and the stripped question. */
  datatype StudentInfo = StudentInfo(board: string, grade: string, subject: string, question: string)

  /** The character classes the pattern uses: `[A-Za-z]`, `\d`, `\s` and `.` (anything but a newline). */
  datatype CharClass = Letter | Digit | Space | NotNewline

  predicate InClass(c: char, cls: CharClass) {
    match cls
    case Letter => 'A' <= c <= 'Z' || 'a' <= c <= 'z'
    case Digit => '0' <= c <= '9'
    case Space => IsSpace(c)
    case NotNewline => c != '\n'
  }

  predicate AllIn(s: string, cls: CharClass) {
    forall k :: 0 <= k < |s| ==> InClass(s[k], cls)
  }

  /** Every character of `s` at a position in `[i, j)` is in `cls`. */
  predicate RunIn(s: string, i: nat, j: nat, cls: CharClass) {
    forall k {:trigger InClass(s[k], cls)} :: i <= k < j && k < |s| ==> InClass(s[k], cls)
  }

  /** A run of positions is exactly a slice whose characters are all in the class. */
  lemma RunInSlice(s: string, i: nat, j: nat, cls: CharClass)
    requires i <= j <= |s|
    ensures RunIn(s, i, j, cls) <==> AllIn(s[i..j], cls)
  {
    if AllIn(s[i..j], cls) {
      forall k | i <= k < j ensures InClass(s[k], cls) {
        assert s[k] == s[i..j][k - i];
      }
    }
  }

  /** What the extractor can ever produce: the three header fields are non-empty runs
      of their classes, and the question holds no line break and no outer whitespace. */
  predicate WellFormed(info: StudentInfo) {
    && |info.board| > 0 && AllIn(info.board, Letter)
    && |info.grade| > 0 && AllIn(info.grade, Digit)
    && |info.subject| > 0 && AllIn(info.subject, Letter)
    && AllIn(info.question, NotNewline)
    && (info.question == [] || (!IsSpace(info.question[0]) && !IsSpace(info.question[|info.question| - 1])))
  }

  /** End of the longest run of `cls` characters starting at `i` (a greedy `cls*`). */
  function SpanEnd(s: string, i: nat, cls: CharClass): (j: nat)
    requires i <= |s|
    ensures i <= j <= |s|
    decreases |s| - i
  {
    if i < |s| && InClass(s[i], cls) then SpanEnd(s, i + 1, cls) else i
  }

  /** The run is maximal: everything in `[i, SpanEnd)` is in the class and the character
      at `SpanEnd`, if any, is not. */
  lemma {:induction false} SpanEndRun(s: string, i: nat, cls: CharClass)
    requires i <= |s|
    ensures RunIn(s, i, SpanEnd(s, i, cls), cls)
    ensures SpanEnd(s, i, cls) < |s| ==> !InClass(s[SpanEnd(s, i, cls)], cls)
    decreases |s| - i
  {
    if i < |s| && InClass(s[i], cls) {
      SpanEndRun(s, i + 1, cls);
    }
  }

  /** The run end is determined by its two defining facts. */
  lemma {:induction false} SpanEndIs(s: string, i: nat, cls: CharClass, j: nat)
    requires i <= j <= |s|
    requires RunIn(s, i, j, cls)
    requires j < |s| ==> !InClass(s[j], cls)
    ensures SpanEnd(s, i, cls) == j
    decreases j - i
  {
    if i < j {
      assert InClass(s[i], cls);
      SpanEndIs(s, i + 1, cls, j);
    }
  }

  /** Case-insensitive occurrence of the lower-case literal `lit` at position `i`. */
  predicate LiteralAt(s: string, i: nat, lit: string) {
    i + |lit| <= |s| && Lower(s[i..i + |lit|]) == lit
  }

  /** The last index in `[lo, hi)` that does not hold a newline. */
  function LastNotNewline(s: string, lo: nat, hi: nat): (r: Option<nat>)
    requires lo <= hi <= |s|
    ensures r.Some? ==> lo <= r.value < hi && s[r.value] != '\n'
    decreases hi - lo
  {
    if hi == lo then None
    else if s[hi - 1] != '\n' then Some(hi - 1)
    else LastNotNewline(s, lo, hi - 1)
  }

  /** Everything in `[lo, hi)` past the answer of `LastNotNewline` (all of it, when there is none) is a newline. */
  lemma {:induction false} LastNotNewlineIsLast(s: string, lo: nat, hi: nat, m: nat)
    requires lo <= m < hi <= |s|
    requires LastNotNewline(s, lo, hi).None? || LastNotNewline(s, lo, hi).value < m
    ensures s[m] == '\n'
    decreases hi - lo
  {
    if s[hi - 1] == '\n' && m < hi - 1 {
      LastNotNewlineIsLast(s, lo, hi - 1, m);
    }
  }

  /** Where the greedy `\s*(.+)` after `Question:` (at `p`) starts its capture: the
      largest `k` such that `s[p..k]` is whitespace and `.+` can match at `k`. */
  function QuestionStart(s: string, p: nat): (r: Option<nat>)
    requires p <= |s|
    ensures r.Some? ==> p <= r.value < |s| && s[r.value] != '\n' && RunIn(s, p, r.value, Space)
  {
    SpanEndRun(s, p, Space);
    var w := SpanEnd(s, p, Space);
    if w < |s| then Some(w) else LastNotNewline(s, p, w)
  }

  /** The capture start is the greatest candidate: any `m` reachable from `p` over whitespace
      and not holding a newline is at or before it (and if there is none, there is no match). */
  lemma QuestionStartIsGreatest(s: string, p: nat, m: nat)
    requires p <= m < |s| && RunIn(s, p, m, Space) && s[m] != '\n'
    ensures QuestionStart(s, p).Some? && m <= QuestionStart(s, p).value
  {
    SpanEndRun(s, p, Space);
    var w := SpanEnd(s, p, Space);
    if w == |s| && (LastNotNewline(s, p, w).None? || LastNotNewline(s, p, w).value < m) {
      LastNotNewlineIsLast(s, p, w, m);
    }
  }

  /** Stripping keeps a string inside any character class it was in. */
  lemma StripInClass(t: string, cls: CharClass)
    requires AllIn(t, cls)
    ensures AllIn(Strip(t), cls)
  {
    var q := Strip(t);
    var a := StripWindow(t);
    forall m | 0 <= m < |q|
      ensures InClass(q[m], cls)
    {
      assert q[m] == t[a + m];
    }
  }

  /** Where the groups of a match lie: the board is `[i, boardEnd)`, the literal
      `-grade-` follows, the grade is `[boardEnd + 7, gradeEnd)`, a `-`, the subject
      `[gradeEnd + 1, subjectEnd)`, a `.`, and the unstripped question is `[capture, captureEnd)`. */
  datatype Spans = Spans(boardEnd: nat, gradeEnd: nat, subjectEnd: nat, capture: nat, captureEnd: nat)

  /** The text after the subject's `.` at `u1`, as `\s*Question:\s*(.+)` lays it out:
      whitespace, `Question:` in any case, whitespace, then the capture `[c, e)`, a
      non-empty piece of one line that runs to the line's end or the text's end. */
  predicate QuestionTail(s: string, u1: nat, c: nat, e: nat) {
    && u1 < c < e <= |s|
    && var q0 := SpanEnd(s, u1 + 1, Space);
      && RunIn(s, u1 + 1, q0, Space)
      && LiteralAt(s, q0, "question:")
      && q0 + 9 <= c && RunIn(s, q0 + 9, c, Space)
      && RunIn(s, c, e, NotNewline)
      && (e == |s| || s[e] == '\n')
  }

  /** The pattern anchored at position `i`, as group positions. Each run is greedy and
      can give nothing back (the character after it is never of its class), except the
      `\s*(.+)` tail, which `QuestionStart` resolves. */
  function MatchSpans(s: string, i: nat): (r: Option<Spans>)
    requires i <= |s|
  {
    var j1 := SpanEnd(s, i, Letter);
    if j1 == i || !LiteralAt(s, j1, "-grade-") then None
    else MatchGrade(s, j1)
  }

  /** The pattern after `-grade-` (which ends at `j1 + 7`): digits, `-`, letters, `.`. */
  function MatchGrade(s: string, j1: nat): (r: Option<Spans>)
    requires j1 + 7 <= |s|
  {
    var d1 := SpanEnd(s, j1 + 7, Digit);
    if d1 == j1 + 7 || d1 == |s| || s[d1] != '-' then None
    else
      var u1 := SpanEnd(s, d1 + 1, Letter);
      if u1 == d1 + 1 || u1 == |s| || s[u1] != '.' then None
      else MatchQuestion(s, j1, d1, u1)
  }

  /** The pattern after the `.` at `u1`: whitespace, `Question:`, whitespace, the captured line. */
  function MatchQuestion(s: string, j1: nat, d1: nat, u1: nat): (r: Option<Spans>)
    requires u1 < |s|
  {
    var q0 := SpanEnd(s, u1 + 1, Space);
    if !LiteralAt(s, q0, "question:") then None
    else
      var k := QuestionStart(s, q0 + 9);
      if k.None? then None
      else Some(Spans(j1, d1, u1, k.value, SpanEnd(s, k.value, NotNewline)))
  }

  /** A match lays out the whole pattern around its groups: letters, `-grade-` in any case,
      digits, `-`, letters, `.`, and then the question tail. */
  lemma MatchSpansFacts(s: string, i: nat)
    requires i <= |s|
    ensures MatchSpans(s, i).Some? ==> var sp := MatchSpans(s, i).value;
      && i < sp.boardEnd && sp.boardEnd + 7 < sp.gradeEnd && sp.gradeEnd + 1 < sp.subjectEnd
      && RunIn(s, i, sp.boardEnd, Letter)
      && LiteralAt(s, sp.boardEnd, "-grade-")
      && RunIn(s, sp.boardEnd + 7, sp.gradeEnd, Digit)
      && s[sp.gradeEnd] == '-'
      && RunIn(s, sp.gradeEnd + 1, sp.subjectEnd, Letter)
      && s[sp.subjectEnd] == '.'
      && QuestionTail(s, sp.subjectEnd, sp.capture, sp.captureEnd)
  {
    if MatchSpans(s, i).Some? {
      SpanEndRun(s, i, Letter);
      MatchGradeFacts(s, SpanEnd(s, i, Letter));
    }
  }

  lemma MatchGradeFacts(s: string, j1: nat)
    requires j1 + 7 <= |s|
    ensures MatchGrade(s, j1).Some? ==> var sp := MatchGrade(s, j1).value;
      && sp.boardEnd == j1 && j1 + 7 < sp.gradeEnd && sp.gradeEnd + 1 < sp.subjectEnd
      && RunIn(s, j1 + 7, sp.gradeEnd, Digit)
      && s[sp.gradeEnd] == '-'
      && RunIn(s, sp.gradeEnd + 1, sp.subjectEnd, Letter)
      && s[sp.subjectEnd] == '.'
      && QuestionTail(s, sp.subjectEnd, sp.capture, sp.captureEnd)
  {
    if MatchGrade(s, j1).Some? {
      var d1 := SpanEnd(s, j1 + 7, Digit);
      SpanEndRun(s, j1 + 7, Digit);
      var u1 := SpanEnd(s, d1 + 1, Letter);
      SpanEndRun(s, d1 + 1, Letter);
      MatchQuestionFacts(s, j1, d1, u1);
    }
  }

  lemma MatchQuestionFacts(s: string, j1: nat, d1: nat, u1: nat)
    requires u1 < |s|
    ensures MatchQuestion(s, j1, d1, u1).Some? ==> var sp := MatchQuestion(s, j1, d1, u1).value;
      && sp.boardEnd == j1 && sp.gradeEnd == d1 && sp.subjectEnd == u1
      && QuestionTail(s, u1, sp.capture, sp.captureEnd)
  {
    if MatchQuestion(s, j1, d1, u1).Some? {
      var q0 := SpanEnd(s, u1 + 1, Space);
      SpanEndRun(s, u1 + 1, Space);
      var k := QuestionStart(s, q0 + 9).value;
      SpanEndRun(s, k, NotNewline);
    }
  }


  /** The regex anchored at position `i`: the four groups, with the question stripped. */
  function MatchAt(s: string, i: nat): (r: Option<StudentInfo>)
    requires i <= |s|
    ensures r.Some? <==> MatchSpans(s, i).Some?
  {
    var m := MatchSpans(s, i);
    if m.None? then None
    else
      var sp := m.value;
      MatchSpansFacts(s, i);
      Some(StudentInfo(s[i..sp.boardEnd], s[sp.boardEnd + 7..sp.gradeEnd],
                       s[sp.gradeEnd + 1..sp.subjectEnd], Strip(s[sp.capture..sp.captureEnd])))
  }

  /** Every record a match produces is well formed. */
  lemma MatchAtWellFormed(s: string, i: nat)
    requires i <= |s|
    ensures MatchAt(s, i).Some? ==> WellFormed(MatchAt(s, i).value)
  {
    if MatchSpans(s, i).Some? {
      var sp := MatchSpans(s, i).value;
      MatchSpansFacts(s, i);
      RunInSlice(s, i, sp.boardEnd, Letter);
      RunInSlice(s, sp.boardEnd + 7, sp.gradeEnd, Digit);
      RunInSlice(s, sp.gradeEnd + 1, sp.subjectEnd, Letter);
      RunInSlice(s, sp.capture, sp.captureEnd, NotNewline);
      StripInClass(s[sp.capture..sp.captureEnd], NotNewline);
      StripEnds(s[sp.capture..sp.captureEnd]);
    }
  }

  /** `re.search`'s scan from position `i` on: the smallest position where the pattern matches. */
  function FirstMatch(s: string, i: nat): (r: Option<nat>)
    requires i <= |s|
    ensures r.Some? ==> i <= r.value <= |s|
    decreases |s| - i
  {
    if MatchSpans(s, i).Some? then Some(i)
    else if i == |s| then None
    else FirstMatch(s, i + 1)
  }

  /** No position from `i` up to the answer of `FirstMatch` (up to the end, when there is none) matches. */
  lemma {:induction false} FirstMatchIsFirst(s: string, i: nat, m: nat)
    requires i <= m <= |s|
    requires FirstMatch(s, i).None? || m < FirstMatch(s, i).value
    ensures MatchSpans(s, m).None?
    decreases |s| - i
  {
    if m > i {
      FirstMatchIsFirst(s, i + 1, m);
    }
  }

  /** The position `FirstMatch` returns is one where the pattern matches. */
  lemma {:induction false} FirstMatchMatches(s: string, i: nat)
    requires i <= |s|
    ensures FirstMatch(s, i).Some? ==> MatchSpans(s, FirstMatch(s, i).value).Some?
    decreases |s| - i
  {
    if MatchSpans(s, i).None? && i < |s| {
      FirstMatchMatches(s, i + 1);
    }
  }

  /** The extractor on one text (`re.search` and the four groups): the match at the
      leftmost position that has one, or nothing; it never fails. */
  function Search(s: string): Option<StudentInfo> {
    var j := FirstMatch(s, 0);
    if j.None? then None else MatchAt(s, j.value)
  }

  /** Every record the extractor returns is well formed. */
  lemma SearchWellFormed(s: string)
    ensures Search(s).Some? ==> WellFormed(Search(s).value)
  {
    var j := FirstMatch(s, 0);
    if j.Some? {
      MatchAtWellFormed(s, j.value);
    }
  }

  /** `Search` finds nothing exactly when the pattern matches nowhere, and otherwise
      returns the match at a position `j` before which it matches nowhere. */
  lemma SearchIsLeftmost(s: string) returns (j: nat)
    ensures Search(s).None? ==> forall m :: 0 <= m <= |s| ==> MatchAt(s, m).None?
    ensures Search(s).Some? ==> j <= |s| && Search(s) == MatchAt(s, j)
    ensures Search(s).Some? ==> forall m :: 0 <= m < j ==> MatchAt(s, m).None?
  {
    var f := FirstMatch(s, 0);
    FirstMatchMatches(s, 0);
    j := if f.Some? then f.value else 0;
    forall m | 0 <= m <= |s| && (f.None? || m < j) ensures MatchAt(s, m).None? {
      FirstMatchIsFirst(s, 0, m);
    }
  }

  /** The message a student sends, in the documented form
      `BOARD-grade-GRADE-SUBJECT. Question: QUESTION`. */
  function Render(info: StudentInfo): string {
    info.board + ("-grade-" + (info.grade + ("-" + (info.subject + (". Question: " + info.question)))))
  }

  /** The character at each position of a rendered message, region by region. */
  lemma RenderAt(info: StudentInfo, k: nat)
    ensures var nb, ng, nu := |info.board|, |info.grade|, |info.subject|;
      var x := nb + 7 + ng + 1 + nu;
      && |Render(info)| == x + 12 + |info.question|
      && (k < nb ==> Render(info)[k] == info.board[k])
      && (nb <= k < nb + 7 ==> Render(info)[k] == "-grade-"[k - nb])
      && (nb + 7 <= k < nb + 7 + ng ==> Render(info)[k] == info.grade[k - nb - 7])
      && (k == nb + 7 + ng ==> Render(info)[k] == '-')
      && (nb + 7 + ng + 1 <= k < x ==> Render(info)[k] == info.subject[k - nb - 7 - ng - 1])
      && (x <= k < x + 12 ==> Render(info)[k] == ". Question: "[k - x])
      && (x + 12 <= k < |Render(info)| ==> Render(info)[k] == info.question[k - x - 12])
  {
  }

  /** The regex matches at 0 with the given group positions once every run, literal and
      stop character is where it must be. */
  lemma MatchSpansOf(s: string, nb: nat, d1: nat, u1: nat, c: nat)
    requires 0 < nb && nb + 7 < d1 && d1 + 1 < u1 < |s| && c <= |s|
    requires SpanEnd(s, 0, Letter) == nb && LiteralAt(s, nb, "-grade-")
    requires SpanEnd(s, nb + 7, Digit) == d1 && s[d1] == '-'
    requires SpanEnd(s, d1 + 1, Letter) == u1 && s[u1] == '.'
    requires SpanEnd(s, u1 + 1, Space) == u1 + 2 && LiteralAt(s, u1 + 2, "question:")
    requires QuestionStart(s, u1 + 11) == Some(c)
    requires SpanEnd(s, c, NotNewline) == |s|
    ensures MatchSpans(s, 0) == Some(Spans(nb, d1, u1, c, |s|))
  {
    MatchQuestionOf(s, nb, d1, u1, c);
    MatchGradeOf(s, nb, d1, u1, Spans(nb, d1, u1, c, |s|));
  }

  lemma MatchQuestionOf(s: string, nb: nat, d1: nat, u1: nat, c: nat)
    requires u1 + 11 <= |s| && c <= |s|
    requires SpanEnd(s, u1 + 1, Space) == u1 + 2 && LiteralAt(s, u1 + 2, "question:")
    requires QuestionStart(s, u1 + 11) == Some(c)
    requires SpanEnd(s, c, NotNewline) == |s|
    ensures MatchQuestion(s, nb, d1, u1) == Some(Spans(nb, d1, u1, c, |s|))
  {
  }

  lemma MatchGradeOf(s: string, nb: nat, d1: nat, u1: nat, sp: Spans)
    requires nb + 7 < d1 && d1 + 1 < u1 < |s|
    requires SpanEnd(s, nb + 7, Digit) == d1 && s[d1] == '-'
    requires SpanEnd(s, d1 + 1, Letter) == u1 && s[u1] == '.'
    requires MatchQuestion(s, nb, d1, u1) == Some(sp)
    ensures MatchGrade(s, nb) == Some(sp)
  {
  }

  /** The header of a rendered message: the board run ends where `-grade-` starts. */
  lemma {:induction false} RenderBoard(info: StudentInfo)
    requires WellFormed(info)
    ensures var s := Render(info);
      && SpanEnd(s, 0, Letter) == |info.board|
      && s[..|info.board|] == info.board
      && LiteralAt(s, |info.board|, "-grade-")
  {
    var s := Render(info);
    var nb := |info.board|;
    forall k | 0 <= k < nb ensures InClass(s[k], Letter) && s[k] == info.board[k] {
      RenderAt(info, k);
    }
    RenderAt(info, nb);
    SpanEndIs(s, 0, Letter, nb);
    forall k | 0 <= k < 7 ensures s[nb..nb + 7][k] == "-grade-"[k] {
      RenderAt(info, nb + k);
    }
    assert s[nb..nb + 7] == "-grade-";
    LowerMarker();
  }

  /** Grade and subject of a rendered message: each run stops at its delimiter. */
  lemma {:induction false} RenderGradeSubject(info: StudentInfo, d1: nat, u1: nat)
    requires WellFormed(info)
    requires d1 == |info.board| + 7 + |info.grade| && u1 == d1 + 1 + |info.subject|
    ensures var s := Render(info);
      var d0 := |info.board| + 7;
      && u1 < |s|
      && SpanEnd(s, d0, Digit) == d1 && s[d1] == '-' && s[d0..d1] == info.grade
      && SpanEnd(s, d1 + 1, Letter) == u1 && s[u1] == '.' && s[d1 + 1..u1] == info.subject
  {
    var s := Render(info);
    var d0 := |info.board| + 7;
    RenderAt(info, 0);
    forall k | d0 <= k < d1 ensures InClass(s[k], Digit) && s[k] == info.grade[k - d0] {
      RenderAt(info, k);
    }
    RenderAt(info, d1);
    SpanEndIs(s, d0, Digit, d1);
    assert s[d0..d1] == info.grade;
    forall k | d1 + 1 <= k < u1 ensures InClass(s[k], Letter) && s[k] == info.subject[k - d1 - 1] {
      RenderAt(info, k);
    }
    RenderAt(info, u1);
    SpanEndIs(s, d1 + 1, Letter, u1);
    assert s[d1 + 1..u1] == info.subject;
  }

  /** The question marker of a rendered message: one space, then `Question:`. */
  lemma {:induction false} RenderMarker(info: StudentInfo, u1: nat)
    requires WellFormed(info)
    requires u1 == |info.board| + 7 + |info.grade| + 1 + |info.subject|
    ensures var s := Render(info);
      && u1 + 12 <= |s|
      && SpanEnd(s, u1 + 1, Space) == u1 + 2 && LiteralAt(s, u1 + 2, "question:")
  {
    var s := Render(info);
    RenderAt(info, u1 + 1);
    RenderAt(info, u1 + 2);
    SpanEndIs(s, u1 + 1, Space, u1 + 2);
    RenderMarkerWord(info, u1);
    LowerMarker();
  }

  lemma RenderMarkerWord(info: StudentInfo, u1: nat)
    requires u1 == |info.board| + 7 + |info.grade| + 1 + |info.subject|
    ensures var s := Render(info);
      u1 + 11 <= |s| && s[u1 + 2..u1 + 11] == "Question:"
  {
    var s := Render(info);
    RenderAt(info, 0);
    forall k | 0 <= k < 9 ensures s[u1 + 2..u1 + 11][k] == "Question:"[k] {
      RenderAt(info, u1 + 2 + k);
    }
  }

  /** The literals of the message, lowered, are the ones the pattern spells. */
  lemma LowerMarker()
    ensures Lower("Question:") == "question:"
    ensures Lower("-grade-") == "-grade-"
  {
    assert Lower("Question:")[0] == 'q';
  }

  /** After the marker come one space and the question itself. */
  lemma {:induction false} RenderCapture(info: StudentInfo, p: nat)
    requires p == |info.board| + 7 + |info.grade| + 1 + |info.subject| + 11
    ensures var s := Render(info);
      p < |s| && s[p] == ' ' && s[p + 1..] == info.question
  {
    var s := Render(info);
    RenderAt(info, p);
    forall k | p + 1 <= k < |s| ensures s[k] == info.question[k - p - 1] {
      RenderAt(info, k);
    }
  }

  /** A message that ends in a lone space captures nothing. */
  lemma CaptureEmpty(s: string, p: nat)
    requires |s| == p + 1 && s[p] == ' '
    ensures QuestionStart(s, p) == Some(p)
    ensures SpanEnd(s, p, NotNewline) == |s|
    ensures Strip(s[p..]) == []
  {
    SpanEndIs(s, p, Space, |s|);
    assert LastNotNewline(s, p, |s|) == Some(p);
    SpanEndIs(s, p, NotNewline, |s|);
    assert s[p..] == " ";
  }

  /** One space followed by a single line that does not start with whitespace: the capture starts after the space. */
  lemma CaptureWord(s: string, p: nat)
    requires p + 1 < |s| && s[p] == ' ' && !IsSpace(s[p + 1])
    requires RunIn(s, p + 1, |s|, NotNewline)
    ensures QuestionStart(s, p) == Some(p + 1)
    ensures SpanEnd(s, p + 1, NotNewline) == |s|
  {
    SpanEndIs(s, p, Space, p + 1);
    SpanEndIs(s, p + 1, NotNewline, |s|);
  }

  /** A message whose leftmost match sits at 0 with the given spans yields the fields those spans cut out. */
  lemma SearchOf(s: string, info: StudentInfo, nb: nat, d1: nat, u1: nat, c: nat)
    requires 0 < nb && nb + 7 < d1 && d1 + 1 < u1 < |s| && c <= |s|
    requires SpanEnd(s, 0, Letter) == nb && LiteralAt(s, nb, "-grade-")
    requires SpanEnd(s, nb + 7, Digit) == d1 && s[d1] == '-'
    requires SpanEnd(s, d1 + 1, Letter) == u1 && s[u1] == '.'
    requires SpanEnd(s, u1 + 1, Space) == u1 + 2 && LiteralAt(s, u1 + 2, "question:")
    requires QuestionStart(s, u1 + 11) == Some(c)
    requires SpanEnd(s, c, NotNewline) == |s|
    requires s[..nb] == info.board && s[nb + 7..d1] == info.grade && s[d1 + 1..u1] == info.subject
    requires Strip(s[c..]) == info.question
    ensures Search(s) == Some(info)
  {
    MatchSpansOf(s, nb, d1, u1, c);
    SearchOfSpans(s, info, nb, d1, u1, c);
  }

  lemma SearchOfSpans(s: string, info: StudentInfo, nb: nat, d1: nat, u1: nat, c: nat)
    requires nb + 7 <= d1 && d1 + 1 <= u1 <= c <= |s|
    requires MatchSpans(s, 0) == Some(Spans(nb, d1, u1, c, |s|))
    requires s[..nb] == info.board && s[nb + 7..d1] == info.grade && s[d1 + 1..u1] == info.subject
    requires Strip(s[c..]) == info.question
    ensures Search(s) == Some(info)
  {
    assert FirstMatch(s, 0) == Some(0);
    MatchAtOf(s, info, nb, d1, u1, c);
  }

  lemma MatchAtOf(s: string, info: StudentInfo, nb: nat, d1: nat, u1: nat, c: nat)
    requires nb + 7 <= d1 && d1 + 1 <= u1 <= c <= |s|
    requires MatchSpans(s, 0) == Some(Spans(nb, d1, u1, c, |s|))
    requires s[..nb] == info.board && s[nb + 7..d1] == info.grade && s[d1 + 1..u1] == info.subject
    requires Strip(s[c..]) == info.question
    ensures MatchAt(s, 0) == Some(info)
  {
    assert s[c..|s|] == s[c..];
    assert s[0..nb] == s[..nb];
  }

  /** The fields of a message laid out as the pattern expects are what the extractor returns. */
  lemma SearchOfLayout(s: string, info: StudentInfo, nb: nat, d1: nat, u1: nat)
    requires WellFormed(info)
    requires 0 < nb && nb + 7 < d1 && d1 + 1 < u1 && u1 + 11 < |s|
    requires SpanEnd(s, 0, Letter) == nb && LiteralAt(s, nb, "-grade-") && s[..nb] == info.board
    requires SpanEnd(s, nb + 7, Digit) == d1 && s[d1] == '-' && s[nb + 7..d1] == info.grade
    requires SpanEnd(s, d1 + 1, Letter) == u1 && s[u1] == '.' && s[d1 + 1..u1] == info.subject
    requires SpanEnd(s, u1 + 1, Space) == u1 + 2 && LiteralAt(s, u1 + 2, "question:")
    requires s[u1 + 11] == ' ' && s[u1 + 12..] == info.question
    ensures Search(s) == Some(info)
  {
    var p := u1 + 11;
    var q := info.question;
    if q == [] {
      CaptureEmpty(s, p);
      SearchOf(s, info, nb, d1, u1, p);
    } else {
      RunInSlice(s, p + 1, |s|, NotNewline);
      CaptureWord(s, p);
      StripOfStripped(q);
      SearchOf(s, info, nb, d1, u1, p + 1);
    }
  }

  /** Every record the extractor can produce is recovered, field for field, from its rendered message. */
  lemma {:induction false} SearchRender(info: StudentInfo)
    requires WellFormed(info)
    ensures Search(Render(info)) == Some(info)
  {
    var nb := |info.board|;
    var d1 := nb + 7 + |info.grade|;
    var u1 := d1 + 1 + |info.subject|;
    RenderBoard(info);
    RenderGradeSubject(info, d1, u1);
    RenderMarker(info, u1);
    RenderCapture(info, u1 + 11);
    SearchOfLayout(Render(info), info, nb, d1, u1);
  }
}
