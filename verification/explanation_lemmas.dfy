/**
 * Properties of the explanation tool: the style depends only on the normalised request,
 * the language is the stripped text after the last "in ", the default request is the
 * example style, the instruction tells the styles apart, and the context splits back
 * into the result texts it was joined from.
 */
module ExplanationLemmas {
  import opened Wrappers
  import opened Text
  import opened Results
  import opened Explanation

  // ---------------------------------------------------------------------------
  // Style
  // ---------------------------------------------------------------------------

  /** Normalising a normalised style changes nothing. */
  lemma NormalFormIsFixed(style: string)
    ensures Strip(Lower(Strip(Lower(style)))) == Strip(Lower(style))
  {
    var l := Lower(style);
    var n := Strip(l);
    var i := StripWindow(l);
    forall k | 0 <= k < |n| ensures Lower(n)[k] == n[k] {
      assert n[k] == l[i + k];
    }
    assert Lower(n) == n;
    StripOfStripped(n);
  }

  /** The style chosen for a request is the one chosen for its lower-cased, stripped form;
      only a language taken verbatim (there being no "in ") shows the difference. */
  lemma StyleIgnoresCaseAndSpace(style: string)
    ensures var n := Strip(Lower(style));
      StyleOf(n) == if StyleOf(style).Language? && !Contains(n, InMarker) then Language(n) else StyleOf(style)
  {
    NormalFormIsFixed(style);
  }

  /** The stripped last piece of a split holds no separator either. */
  lemma StrippedLastPiece(s: string, sep: string)
    requires |sep| > 0
    ensures !Contains(Strip(LastPiece(s, sep)), sep)
  {
    var piece := LastPiece(s, sep);
    LastPieceHasNoSep(s, sep);
    var j := StripWindow(piece);
    if Contains(Strip(piece), sep) {
      ContainsInfix(piece, sep, j, j + |Strip(piece)|);
    }
  }

  /** `LanguageOf` takes the stripped text after the last "in ", or the request verbatim. */
  lemma LanguageOfAfterLastIn(style: string, l: string) returns (i: nat)
    ensures var name := LanguageOf(style, l);
      && (Contains(l, InMarker) ==>
            && OccursAt(l, InMarker, i)
            && name == Strip(l[i + |InMarker|..])
            && !Contains(name, InMarker)
            && (name == [] || (!IsSpace(name[0]) && !IsSpace(name[|name| - 1]))))
      && (!Contains(l, InMarker) ==> name == style)
  {
    i := 0;
    if Contains(l, InMarker) {
      i := LastPieceFollowsSep(l, InMarker);
      StrippedLastPiece(l, InMarker);
      StripEnds(LastPiece(l, InMarker));
    }
  }

  /** In the language style the language is the stripped text after the last "in " of the
      normalised request: it follows an occurrence of "in ", holds no further "in " and has
      no outer whitespace. Without any "in " it is the request exactly as given. */
  lemma LanguageAfterLastIn(style: string) returns (i: nat)
    requires StyleOf(style).Language?
    ensures var l := Strip(Lower(style));
      var name := StyleOf(style).name;
      && (Contains(l, InMarker) ==>
            && OccursAt(l, InMarker, i)
            && name == Strip(l[i + |InMarker|..])
            && !Contains(name, InMarker)
            && (name == [] || (!IsSpace(name[0]) && !IsSpace(name[|name| - 1]))))
      && (!Contains(l, InMarker) ==> name == style)
  {
    i := LanguageOfAfterLastIn(style, Strip(Lower(style)));
  }

  /** A request with no style gets the example instruction. */
  lemma DefaultIsExample()
    ensures StyleOf(DefaultStyle) == Example
    ensures Instruction(StyleOf(DefaultStyle)) == ExampleInstruction
  {
    var s := DefaultStyle;
    assert Lower(s) == s;
    StripOfStripped(s);
    assert OccursAt(s, "example", 5);
    ContainsIff(s, "example");
  }

  /** The ninth character of an instruction: `i` for a language ("Explain in"), `w` for
      examples ("Explain with"), `u` for memory and story ("Explain using"); the fifteenth
      tells the last two apart. */
  lemma InstructionKey(s: Style)
    ensures |Instruction(s)| > 14
    ensures Instruction(s)[8] == if s.Language? then 'i' else if s.Example? then 'w' else 'u'
    ensures s.Memory? ==> Instruction(s)[14] == 'm'
    ensures s.Story? ==> Instruction(s)[14] == 'a'
  {
    match s
    case Example =>
      assert ExampleInstruction[8] == 'w';
    case Memory =>
      assert MemoryInstruction[8] == 'u' && MemoryInstruction[14] == 'm';
    case Story =>
      assert StoryInstruction[8] == 'u' && StoryInstruction[14] == 'a';
    case Language(name) =>
      var head := "Explain in " + name;
      var tail := " language. Use culturally appropriate examples and natural language flow.";
      assert Instruction(s) == head + tail;
      assert head[8] == 'i';
  }

  /** The instruction determines the style: no two styles, nor two language names, share one. */
  lemma InstructionDeterminesStyle(a: Style, b: Style)
    requires Instruction(a) == Instruction(b)
    ensures a == b
  {
    InstructionKey(a);
    InstructionKey(b);
    if a.Language? && b.Language? {
      var tail := " language. Use culturally appropriate examples and natural language flow.";
      var n := |a.name|;
      assert Instruction(a) == "Explain in " + a.name + tail;
      assert Instruction(b) == "Explain in " + b.name + tail;
      assert |b.name| == n;
      assert Instruction(a)[11..11 + n] == a.name;
      assert Instruction(b)[11..11 + n] == b.name;
    }
  }

  // ---------------------------------------------------------------------------
  // Context and prompt
  // ---------------------------------------------------------------------------

  /** The layout of the context, for any texts: the `k`-th result's text occurs whole at
      its offset, followed by a blank line unless it is the last, and the last text ends
      the context. */
  lemma ContextLayout(results: seq<ResultItem>, k: nat) returns (o: nat)
    requires k < |results|
    ensures o == JoinOffset(ContextSeparator, Texts(results), k)
    ensures OccursAt(Context(results), TextOf(results[k]), o)
    ensures k + 1 < |results| ==> OccursAt(Context(results), ContextSeparator, o + |TextOf(results[k])|)
    ensures k + 1 == |results| ==> |Context(results)| == o + |TextOf(results[k])|
  {
    o := JoinOffset(ContextSeparator, Texts(results), k);
    JoinLayout(ContextSeparator, Texts(results), k);
  }

  /** Texts without line breaks can be read back from the context: splitting it at the
      blank lines gives the texts of the results, one per result. */
  lemma ContextSplits(results: seq<ResultItem>)
    requires |results| >= 1
    requires forall k :: 0 <= k < |results| ==> Lacks(TextOf(results[k]), '\n')
    ensures Split(Context(results), ContextSeparator) == Texts(results)
  {
    SplitJoin(ContextSeparator, Texts(results));
  }

  /** On success, the context splits back into exactly `results_count` texts, those of the
      results in order (when no text holds a line break). */
  lemma ReadyContextCounts(ragResults: Response, style: string, question: Option<string>)
    requires forall k :: 0 <= k < |ResultsOf(ragResults)| ==> Lacks(TextOf(ResultsOf(ragResults)[k]), '\n')
    ensures var r := GenerateExplanation(ragResults, style, question);
      r.Ready? ==>
        && Split(r.context, ContextSeparator) == Texts(ResultsOf(ragResults))
        && |Split(r.context, ContextSeparator)| == r.count
  {
    if ResultsOf(ragResults) != [] {
      ContextSplits(ResultsOf(ragResults));
    }
  }

  /** The prompt carries the instruction, then the question, then the context, each whole. */
  lemma PromptCarries(instruction: string, question: string, context: string) returns (a: nat, b: nat, c: nat)
    ensures var p := Prompt(instruction, question, context);
      && OccursAt(p, instruction, a) && OccursAt(p, question, b) && OccursAt(p, context, c)
      && a + |instruction| <= b && b + |question| <= c
  {
    var p := Prompt(instruction, question, context);
    a := |PromptOpening|;
    b := a + |instruction| + |PromptQuestion|;
    c := b + |question| + |PromptContent|;
    assert p[a..a + |instruction|] == instruction;
    assert p[b..b + |question|] == question;
    assert p[c..c + |context|] == context;
  }

  /** With no question, or an empty one, the prompt asks for a general explanation. */
  lemma NoQuestionIsGeneral(ragResults: Response, style: string)
    requires ResultsOf(ragResults) != []
    ensures var r := GenerateExplanation(ragResults, style, None);
      && r == GenerateExplanation(ragResults, style, Some(""))
      && r.prompt == Prompt(Instruction(StyleOf(style)), DefaultQuestion, r.context)
  {
  }
}
