/** The pure logic of `AIService` in app/services/ai_service.py: the difficulty-tier
    style guide, the expression prompt, the line-list reading of the reply, and the
    evaluation entry point with its empty-input and failure paths. */
module AIService {
  import opened PyStr
  import opened Seqs
  import opened Gemini

  /** `MODEL_NAME`: the model every request is sent to. */
  const ModelName: string := "gemini-3-flash-preview"

  /** Returned instead of an evaluation when there is nothing to evaluate. */
  const NoInput: string := "No input provided."

  /** Put in front of the exception message when the evaluation request fails. */
  const EvaluationErrorPrefix: string := "Error during evaluation: "

  datatype Option<T> = None | Some(value: T)

  /** The difficulty tiers the service recognises. */
  datatype Tier = Beginner | Intermediate | Advanced

  function TierName(t: Tier): string {
    match t
    case Beginner => "Beginner"
    case Intermediate => "Intermediate"
    case Advanced => "Advanced"
  }

  /** The tier a difficulty string names. The comparison is exact: any other spelling,
      including a different letter case, names no tier. */
  function ParseTier(difficulty: string): (t: Option<Tier>)
    ensures t.Some? ==> TierName(t.value) == difficulty
    ensures t.None? ==> forall tier :: TierName(tier) != difficulty
  {
    if difficulty == "Beginner" then Some(Beginner)
    else if difficulty == "Intermediate" then Some(Intermediate)
    else if difficulty == "Advanced" then Some(Advanced)
    else None
  }

  /** The fixed style instruction of each tier; all three begin with "Use ". */
  function StyleGuide(t: Tier): (s: string)
    ensures s != ""
  {
    "Use " +
    match t
    case Beginner => "simple, essential daily phrases for survival and basic greetings."
    case Intermediate => "natural conversational sentences expressing feelings, opinions, or situations."
    case Advanced => "sophisticated vocabulary, idioms, slangs, or professional business expressions."
  }

  /** `difficulty_instruction`: the style guide of the named tier, and the empty string
      for a difficulty that names none. */
  function DifficultyInstruction(difficulty: string): (r: string)
    ensures forall t :: TierName(t) == difficulty ==> r == StyleGuide(t)
    ensures (forall t :: TierName(t) != difficulty) ==> r == ""
  {
    match ParseTier(difficulty)
    case Some(t) =>
      assert forall u :: TierName(u) == difficulty ==> u == t by {
        forall u | TierName(u) == difficulty
          ensures u == t
        {
          TierNameInjective(u, t);
        }
      }
      StyleGuide(t)
    case None => ""
  }

  /** Distinct tiers have distinct names. */
  lemma TierNameInjective(t: Tier, u: Tier)
    requires TierName(t) == TierName(u)
    ensures t == u
  {
  }

  /** The fixed line of the expression prompt that forbids translations. */
  const NoTranslations: string :=
    "Constraint: Do not include translations. Just the list of source text."

  /** The literal parts of the f-string of `generate_expressions`, with its leading
      newline and eight-space indentation; the fields between them are `count`,
      `src_lang`, `difficulty` and `difficulty_instruction`. */
  const ExpressionTemplate: seq<string> := [
    "\n        List ",
    " useful expressions used in ",
    ".\n        \n        Target Level: ",
    "\n        Style Guide: ",
    ExpressionTail
  ]

  /** The last literal part of the expression prompt: the constraint and the output format. */
  const ExpressionTail: string :=
    "\n        \n        " + NoTranslations
    + "\n        Output format: A simple list separated by newlines.\n        "

  /** The expression prompt. It carries the count, the language, the tier name and the
      tier's instruction verbatim, and always the line that forbids translations. */
  function ExpressionPrompt(srcLang: string, count: int, difficulty: string): (p: string)
    ensures Contains(p, IntToString(count))
    ensures Contains(p, srcLang)
    ensures Contains(p, difficulty)
    ensures Contains(p, DifficultyInstruction(difficulty))
    ensures Contains(p, NoTranslations)
  {
    var fields := [IntToString(count), srcLang, difficulty, DifficultyInstruction(difficulty)];
    var p := FString(ExpressionTemplate, fields);
    FStringContains(ExpressionTemplate, fields);
    assert fields[0] == IntToString(count) && fields[1] == srcLang;
    assert fields[2] == difficulty && fields[3] == DifficultyInstruction(difficulty);
    assert ExpressionTemplate[4] == ExpressionTail;
    ContainsMiddle("\n        \n        ", NoTranslations,
      "\n        Output format: A simple list separated by newlines.\n        ");
    ContainsTransitive(p, ExpressionTail, NoTranslations);
    p
  }

  /** A line of the reply is kept when something is left of it after stripping. */
  predicate NonBlank(line: string) {
    Strip(line) != ""
  }

  /** What stripping a kept segment of the reply yields. */
  predicate CleanLine(line: string) {
    line != "" && Strip(line) == line && '\n' !in line
  }

  lemma StripKeptSegment(segment: string)
    requires NonBlank(segment) && '\n' !in segment
    ensures CleanLine(Strip(segment))
  {
    StripIdempotent(segment);
    var a, b := StripDecomposes(segment);
    assert '\n' !in Strip(segment) by {
      forall k | 0 <= k < |Strip(segment)|
        ensures Strip(segment)[k] != '\n'
      {
        assert Strip(segment)[k] == segment[|a| + k];
      }
    }
  }

  /** `[line.strip() for line in text.split('\n') if line.strip()]`. */
  function ParseLines(text: string): (lines: seq<string>)
    ensures forall k :: 0 <= k < |lines| ==> CleanLine(lines[k])
    ensures |lines| <= Occurrences(text, '\n') + 1
  {
    var pieces := Split(text, '\n');
    var lines := FilterMap(pieces, NonBlank, Strip);
    FilterMapAtPositions(pieces, NonBlank, Strip);
    var at := KeptPositions(pieces, NonBlank);
    assert forall k :: 0 <= k < |lines| ==> CleanLine(lines[k]) by {
      forall k | 0 <= k < |lines|
        ensures CleanLine(lines[k])
      {
        assert lines[k] == Strip(pieces[at[k]]);
        StripKeptSegment(pieces[at[k]]);
      }
    }
    lines
  }

  /** The reply's lines are exactly the stripped non-blank `'\n'`-separated segments,
      in their original order: the kept segments are those at `KeptPositions`. */
  lemma ParseLinesSegments(text: string)
    ensures var pieces := Split(text, '\n');
            var at := KeptPositions(pieces, NonBlank);
            && |ParseLines(text)| == |at|
            && forall k :: 0 <= k < |at| ==> ParseLines(text)[k] == Strip(pieces[at[k]])
  {
    FilterMapAtPositions(Split(text, '\n'), NonBlank, Strip);
  }

  /** Reading a reply line by line: the lines of two texts joined by a newline are
      the lines of the first followed by the lines of the second. */
  lemma ParseLinesConcat(a: string, b: string)
    ensures ParseLines(a + "\n" + b) == ParseLines(a) + ParseLines(b)
  {
    SplitConcat(a, b, '\n');
    FilterMapAppend(Split(a, '\n'), Split(b, '\n'), NonBlank, Strip);
  }

  /** A text without a newline is a single line, kept unless blank. */
  lemma ParseLinesSingle(line: string)
    requires '\n' !in line
    ensures ParseLines(line) == if NonBlank(line) then [Strip(line)] else []
  {
    SplitWithoutSep(line, '\n');
  }

  /** Two clean lines separated by a newline read as exactly those two lines. */
  lemma ParseLinesTwo(first: string, second: string)
    requires CleanLine(first) && CleanLine(second)
    ensures ParseLines(first + "\n" + second) == [first, second]
  {
    assert NonBlank(first) && NonBlank(second);
    ParseLinesSingle(first);
    ParseLinesSingle(second);
    assert ParseLines(second) == [second];
    ParseLinesConcat(first, second);
  }

  /** A reply with a blank line, trailing blanks and a final newline: `"a\n\nb \n c\n"`
      reads as `["a", "b", "c"]`. */
  lemma ParseLinesExample()
    ensures ParseLines("a\n\nb \n c\n") == ["a", "b", "c"]
  {
    SingleCharLine('a');
    SingleCharLine('b');
    SingleCharLine('c');
    ParseLinesBlankAndPadded("a", "b", "c", " ");
    ExampleReplyText();
  }

  /** The shape of the example reply, for any clean lines and newline-free padding:
      a line, a blank line, a line with trailing padding and a line with leading
      padding, each ended by a newline. */
  lemma ParseLinesBlankAndPadded(a: string, b: string, c: string, pad: string)
    requires CleanLine(a) && CleanLine(b) && CleanLine(c)
    requires AllSpace(pad) && '\n' !in pad
    ensures ParseLines(a + "\n" + ("" + "\n" + ((b + pad) + "\n" + ((pad + c) + "\n" + "")))) == [a, b, c]
  {
    var rest := "" + "\n" + ((b + pad) + "\n" + ((pad + c) + "\n" + ""));
    ExampleAfterFirst(b, c, pad);
    ParseLinesSingle(a);
    ParseLinesStep(a, rest, [a], [b, c]);
  }

  /** The example reply after its first line: a blank line, then the two padded lines. */
  lemma ExampleAfterFirst(b: string, c: string, pad: string)
    requires CleanLine(b) && CleanLine(c)
    requires AllSpace(pad) && '\n' !in pad
    ensures ParseLines("" + "\n" + ((b + pad) + "\n" + ((pad + c) + "\n" + ""))) == [b, c]
  {
    var rest := (b + pad) + "\n" + ((pad + c) + "\n" + "");
    ExamplePaddedLines(b, c, pad);
    ParseLinesSingle("");
    ParseLinesStep("", rest, [], [b, c]);
  }

  /** A line with trailing padding, then a line with leading padding and a final newline. */
  lemma ExamplePaddedLines(b: string, c: string, pad: string)
    requires CleanLine(b) && CleanLine(c)
    requires AllSpace(pad) && '\n' !in pad
    ensures ParseLines((b + pad) + "\n" + ((pad + c) + "\n" + "")) == [b, c]
  {
    var rest := (pad + c) + "\n" + "";
    ExampleLastLine(c, pad);
    ParseLinesTrailing(b, pad);
    ParseLinesStep(b + pad, rest, [b], [c]);
  }

  /** A line with leading padding followed by a final newline. */
  lemma ExampleLastLine(c: string, pad: string)
    requires CleanLine(c)
    requires AllSpace(pad) && '\n' !in pad
    ensures ParseLines((pad + c) + "\n" + "") == [c]
  {
    ParseLinesLeading(pad, c);
    ParseLinesSingle("");
    ParseLinesStep(pad + c, "", [c], []);
  }

  /** The example reply written as the nesting that `ParseLinesBlankAndPadded` reads. */
  lemma ExampleReplyText()
    ensures "a" + "\n" + ("" + "\n" + (("b" + " ") + "\n" + ((" " + "c") + "\n" + ""))) == "a\n\nb \n c\n"
  {
  }

  /** A single character that is neither whitespace nor a newline is a clean line. */
  lemma SingleCharLine(x: char)
    requires !IsSpace(x) && x != '\n'
    ensures CleanLine([x])
  {
    StripPadded([], [x], []);
    assert [] + [x] + [] == [x];
  }

  /** The concatenation property with the lines of both parts given. */
  lemma ParseLinesStep(a: string, b: string, la: seq<string>, lb: seq<string>)
    requires ParseLines(a) == la && ParseLines(b) == lb
    ensures ParseLines(a + "\n" + b) == la + lb
  {
    ParseLinesConcat(a, b);
  }

  /** A clean line followed by whitespace reads as that line. */
  lemma ParseLinesTrailing(line: string, pad: string)
    requires CleanLine(line) && AllSpace(pad) && '\n' !in pad
    ensures ParseLines(line + pad) == [line]
  {
    assert [] + line + pad == line + pad;
    ParseLinesPadded([], line, pad);
  }

  /** Whitespace followed by a clean line reads as that line. */
  lemma ParseLinesLeading(pad: string, line: string)
    requires CleanLine(line) && AllSpace(pad) && '\n' !in pad
    ensures ParseLines(pad + line) == [line]
  {
    assert pad + line + [] == pad + line;
    ParseLinesPadded(pad, line, []);
  }

  /** One non-empty trimmed core between whitespace, without newlines, reads as that core. */
  lemma ParseLinesPadded(before: string, core: string, after: string)
    requires AllSpace(before) && AllSpace(after) && Trimmed(core) && core != ""
    requires '\n' !in before + core + after
    ensures ParseLines(before + core + after) == [core]
  {
    StripPadded(before, core, after);
    ParseLinesSingle(before + core + after);
  }

  /** Joining parsed lines with newlines and parsing again gives the same lines back. */
  lemma {:induction false} ParseLinesJoin(lines: seq<string>)
    requires forall k :: 0 <= k < |lines| ==> lines[k] != "" && Trimmed(lines[k]) && '\n' !in lines[k]
    ensures ParseLines(Join(lines, '\n')) == lines
  {
    if |lines| == 0 {
      ParseLinesSingle("");
    } else {
      SplitJoin(lines, '\n');
      forall k | 0 <= k < |lines|
        ensures NonBlank(lines[k]) && Strip(lines[k]) == lines[k]
      {
        StripPadded([], lines[k], []);
        assert [] + lines[k] + [] == lines[k];
      }
      FilterMapFixes(lines, NonBlank, Strip);
    }
  }

  /** Parsing is idempotent: re-reading the joined result changes nothing. */
  lemma ParseLinesIdempotent(text: string)
    ensures ParseLines(Join(ParseLines(text), '\n')) == ParseLines(text)
  {
    ParseLinesJoin(ParseLines(text));
  }

  /** `generate_expressions`: one request with the expression prompt; the reply's
      lines on success, and the empty list (not an exception) on failure. A response
      without text fails too: splitting `None` raises inside the same `try`. */
  function GenerateExpressions(backend: Backend, srcLang: string, count: int, difficulty: string)
    : (r: Traced<seq<string>>)
    ensures r.calls == [Call(ModelName, ExpressionPrompt(srcLang, count, difficulty))]
    ensures backend(r.calls[0]).Err? ==> r.value == []
    ensures backend(r.calls[0]).NoText? ==> r.value == []
    ensures backend(r.calls[0]).Ok? ==> r.value == ParseLines(backend(r.calls[0]).text)
    ensures forall k :: 0 <= k < |r.value| ==> r.value[k] != "" && Strip(r.value[k]) == r.value[k]
  {
    var call := Call(ModelName, ExpressionPrompt(srcLang, count, difficulty));
    match backend(call)
    case Ok(text) => Traced(ParseLines(text), [call])
    case NoText => Traced([], [call])
    case Err(_) => Traced([], [call])
  }

  /** The number of expressions is set by the reply, not by `count`: a two-line reply
      yields two expressions whatever `count` asked for. */
  lemma GenerateExpressionsKeepsEveryLine(backend: Backend, srcLang: string, count: int, difficulty: string,
                                          first: string, second: string)
    requires CleanLine(first) && CleanLine(second)
    requires backend(Call(ModelName, ExpressionPrompt(srcLang, count, difficulty))) == Ok(first + "\n" + second)
    ensures GenerateExpressions(backend, srcLang, count, difficulty).value == [first, second]
  {
    ParseLinesTwo(first, second);
  }

  /** The literal parts of the f-string of `get_evaluation`; the fields between them are
      `src_lang`, `tgt_lang`, `src_text` and `user_text`, the two texts between double
      quotes and without any escaping. */
  const EvaluationTemplate: seq<string> := [
    "\n        Task: Evaluate a language translation practice.\n        \n        Source Language: ",
    "\n        Target Language: ",
    "\n        \n        Source Text: \"",
    "\"\n        User's Translation: \"",
    "\"\n        \n        Instructions:\n"
      + "        1. Is the translation grammatically and contextually correct?\n"
      + "        2. If it contains errors or is unnatural, provide the **Corrected Sentence** wrapped in bold markdown (e.g., **Corrected Sentence**).\n"
      + "        3. Provide a brief explanation.\n"
      + "        4. Keep the output concise (max 3 sentences).\n        "
  ]

  /** The evaluation prompt. It carries both languages and both texts verbatim. */
  function EvaluationPrompt(srcText: string, userText: string, srcLang: string, tgtLang: string)
    : (p: string)
    ensures Contains(p, srcLang) && Contains(p, tgtLang)
    ensures Contains(p, srcText) && Contains(p, userText)
  {
    var fields := [srcLang, tgtLang, srcText, userText];
    FStringContains(EvaluationTemplate, fields);
    assert fields[0] == srcLang && fields[1] == tgtLang && fields[2] == srcText && fields[3] == userText;
    FString(EvaluationTemplate, fields)
  }

  /** `get_evaluation`: an empty user text is answered with `NoInput` and no request;
      otherwise one request with the evaluation prompt, whose text is returned as is
      on success (`None` when the response has no text) and whose exception message is
      returned behind `EvaluationErrorPrefix` on failure. */
  function GetEvaluation(backend: Backend, srcText: string, userText: string, srcLang: string, tgtLang: string)
    : (r: Traced<Option<string>>)
    ensures r.calls == [] <==> userText == ""
    ensures userText == "" ==> r.value == Some(NoInput)
    ensures userText != "" ==>
              r.calls == [Call(ModelName, EvaluationPrompt(srcText, userText, srcLang, tgtLang))]
    ensures userText != "" && backend(r.calls[0]).Ok? ==> r.value == Some(backend(r.calls[0]).text)
    ensures userText != "" && backend(r.calls[0]).NoText? ==> r.value == None
    ensures userText != "" && backend(r.calls[0]).Err? ==>
              r.value == Some(EvaluationErrorPrefix + backend(r.calls[0]).msg)
  {
    if userText == "" then Traced(Some(NoInput), [])
    else
      var call := Call(ModelName, EvaluationPrompt(srcText, userText, srcLang, tgtLang));
      match backend(call)
      case Ok(text) => Traced(Some(text), [call])
      case NoText => Traced(None, [call])
      case Err(msg) => Traced(Some(EvaluationErrorPrefix + msg), [call])
  }
}
