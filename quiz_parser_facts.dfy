/**
 * What the quiz parser's step-by-step functions mean.
 *
 * `QuizParser` follows the parser's loops; this module describes the same
 * results without the loops -- where a block's answers are, what each
 * answer holds, which check a block fails and at which line, which
 * questions a file yields and at which counted line an error is reported --
 * and proves that the loops compute exactly that.
 */
module QuizParserFacts {
  import opened Wrappers
  import opened Text
  import opened QuizParser

  // ---------------------------------------------------------------------------
  // answer lines as an author writes them
  // ---------------------------------------------------------------------------

  /** The answer line `- (X) text` or `- [ ] text` an author writes for a flag and a text. */
  function WrittenAnswer(shape: Shape, flag: char, text: string): string {
    "- " + [Open(shape), flag, Close(shape)] + " " + text
  }

  function OtherShape(shape: Shape): (other: Shape)
    ensures other != shape
  {
    if shape == Paren then Bracket else Paren
  }

  /**
   * A written answer line matches its own shape's pattern, giving back its
   * flag and its text, and not the other shape's pattern; so it is an
   * answer line whose marker is the written one.
   */
  lemma WrittenAnswerMatches(shape: Shape, flag: char, text: string)
    requires IsFlag(flag) && (text == [] || !IsSpace(text[0]))
    ensures var line := WrittenAnswer(shape, flag, text);
      && MatchShape(line, shape) == Some(Marker(shape, flag, text))
      && MatchShape(line, OtherShape(shape)) == None
      && IsAnswerLine(line)
      && MatchAnswer(line) == Some(Marker(shape, flag, text))
  {
    var line := WrittenAnswer(shape, flag, text);
    assert line[0] == '-' && line[1] == ' ' && line[2] == Open(shape);
    assert line[3] == flag && line[4] == Close(shape);
    assert line[5..] == " " + text;
    assert SpaceEnd(" " + text, 1) == 1;
    assert LStrip(line[5..]) == text;
  }

  /**
   * The marker of `shape` starts at index `k` of `line`, after nothing but
   * whitespace from index `i` on.
   */
  predicate MarkerAt(line: string, i: nat, k: nat, shape: Shape) {
    && i <= k && k + 3 <= |line|
    && (forall j :: i <= j < k ==> IsSpace(line[j]))
    && line[k] == Open(shape) && IsFlag(line[k + 1]) && line[k + 2] == Close(shape)
  }

  /**
   * The rest of the pattern matches from index `i` exactly when a marker
   * follows there after whitespace, and then the match holds that marker's
   * flag and the text after it with its leading whitespace dropped.
   */
  lemma {:induction false} MarkerAtMatches(line: string, i: nat, shape: Shape)
    requires i <= |line|
    ensures MatchMarkerAt(line, i, shape).Some? <==> exists k :: MarkerAt(line, i, k, shape)
    ensures forall k :: MarkerAt(line, i, k, shape) ==>
      MatchMarkerAt(line, i, shape) == Some(Marker(shape, line[k + 1], LStrip(line[k + 3..])))
    decreases |line| - i
  {
    if i < |line| && IsSpace(line[i]) {
      assert MatchMarkerAt(line, i, shape) == MatchMarkerAt(line, i + 1, shape);
      MarkerAtSkipsSpace(line, i, shape);
      MarkerAtMatches(line, i + 1, shape);
      if MatchMarkerAt(line, i + 1, shape).Some? {
        var k :| MarkerAt(line, i + 1, k, shape);
        assert MarkerAt(line, i, k, shape);
      }
    } else {
      MarkerAtHere(line, i, shape);
      if MatchMarkerAt(line, i, shape).Some? {
        assert MarkerAt(line, i, i, shape);
      }
    }
  }

  /** Whitespace at `i` may be skipped on the way to a marker. */
  lemma MarkerAtSkipsSpace(line: string, i: nat, shape: Shape)
    requires i < |line| && IsSpace(line[i])
    ensures forall k :: MarkerAt(line, i, k, shape) <==> MarkerAt(line, i + 1, k, shape)
  {
    assert !IsSpace(Open(shape));
  }

  /** Without whitespace at `i`, a marker can only start at `i`. */
  lemma MarkerAtHere(line: string, i: nat, shape: Shape)
    requires i <= |line| && !(i < |line| && IsSpace(line[i]))
    ensures forall k :: MarkerAt(line, i, k, shape) ==> k == i
  {
  }

  /**
   * A line is an answer line exactly when it is a dash, whitespace, and a
   * `(?)` or `[?]` marker after more optional whitespace, the flag being a
   * blank, `X` or `x`.
   */
  lemma AnswerLineForm(line: string)
    ensures IsAnswerLine(line) <==>
      && |line| >= 2 && line[0] == '-' && IsSpace(line[1])
      && exists shape, k :: MarkerAt(line, 2, k, shape)
  {
    if |line| >= 2 {
      MarkerAtMatches(line, 2, Paren);
      MarkerAtMatches(line, 2, Bracket);
      if exists shape, k :: MarkerAt(line, 2, k, shape) {
        var shape, k :| MarkerAt(line, 2, k, shape);
        assert shape == Paren || shape == Bracket;
      }
    }
  }

  // ---------------------------------------------------------------------------
  // a block's lines, described without the answer loop
  // ---------------------------------------------------------------------------

  /** Index of the first reason marker at or after `i`, or `|lines|`. */
  function ReasonFrom(lines: seq<string>, i: nat): (k: nat)
    requires i <= |lines|
    ensures i <= k <= |lines|
    ensures k < |lines| ==> IsReasonMarker(lines[k])
    ensures forall j {:trigger IsReasonMarker(lines[j])} :: i <= j < k ==> !IsReasonMarker(lines[j])
    decreases |lines| - i
  {
    if i == |lines| || IsReasonMarker(lines[i]) then i else ReasonFrom(lines, i + 1)
  }

  /** `ks` lists answer lines below `end`, in increasing order. */
  predicate AnswerList(lines: seq<string>, ks: seq<nat>, end: nat) {
    && end <= |lines|
    && (forall t :: 0 <= t < |ks| ==> ks[t] < end && IsAnswerLine(lines[ks[t]]))
    && (forall t :: 0 <= t < |ks| - 1 ==> ks[t] < ks[t + 1])
  }

  /** The indices of the answer lines in `[i, end)`, in increasing order. */
  function AnswerIndices(lines: seq<string>, i: nat, end: nat): (ks: seq<nat>)
    requires i <= end <= |lines|
    ensures forall t :: 0 <= t < |ks| ==> i <= ks[t]
    ensures AnswerList(lines, ks, end)
    decreases end - i
  {
    if i == end then []
    else if IsAnswerLine(lines[i]) then [i] + AnswerIndices(lines, i + 1, end)
    else AnswerIndices(lines, i + 1, end)
  }

  lemma {:induction false} AnswerIndicesComplete(lines: seq<string>, i: nat, end: nat, j: nat)
    requires i <= j < end <= |lines| && IsAnswerLine(lines[j])
    ensures j in AnswerIndices(lines, i, end)
    decreases j - i
  {
    if i < j {
      AnswerIndicesComplete(lines, i + 1, end, j);
    }
  }

  /** An answer line never reads as the reason marker: it starts with a dash. */
  lemma AnswerLineIsNotReason(line: string)
    requires IsAnswerLine(line)
    ensures !IsReasonMarker(line)
  {
    assert MatchAnswer(line).Some?;
    StripKeepsFirst(line);
  }

  /** The marker shape of an answer line. */
  function ShapeAt(lines: seq<string>, k: nat): Shape
    requires k < |lines| && IsAnswerLine(lines[k])
  {
    MatchAnswer(lines[k]).value.shape
  }

  /** Where answer `t` of the list stops: at the next answer line, or at `end`. */
  function StopAfter(ks: seq<nat>, t: nat, end: nat): nat {
    if t + 1 < |ks| then ks[t + 1] else end
  }

  /** The answers written on the listed lines, each running to the next answer line or to `end`. */
  function ListedAnswers(lines: seq<string>, ks: seq<nat>, end: nat): (r: seq<Answer>)
    requires AnswerList(lines, ks, end)
    ensures |r| == |ks|
    ensures forall t :: 0 <= t < |r| ==> IsStripped(r[t].text)
  {
    if ks == [] then []
    else [AnswerFor(lines, ks[0], StopAfter(ks, 0, end))] + ListedAnswers(lines, ks[1..], end)
  }

  /** Answer `t` is the one written on line `ks[t]`, running to the next listed line or to `end`. */
  lemma {:induction false} ListedAnswerAt(lines: seq<string>, ks: seq<nat>, end: nat, t: nat)
    requires AnswerList(lines, ks, end) && t < |ks|
    ensures ListedAnswers(lines, ks, end)[t] == AnswerFor(lines, ks[t], StopAfter(ks, t, end))
  {
    if t > 0 {
      ListedAnswerAt(lines, ks[1..], end, t - 1);
      assert StopAfter(ks[1..], t - 1, end) == StopAfter(ks, t, end);
    }
  }

  /** Position in `ks` of the first line whose shape is not `shape`, or `|ks|`. */
  function FirstOtherShape(lines: seq<string>, ks: seq<nat>, shape: Shape): (u: nat)
    requires forall t :: 0 <= t < |ks| ==> ks[t] < |lines| && IsAnswerLine(lines[ks[t]])
    ensures u <= |ks|
    ensures u < |ks| ==> ShapeAt(lines, ks[u]) != shape
    ensures forall v :: 0 <= v < u ==> ShapeAt(lines, ks[v]) == shape
  {
    if ks == [] || ShapeAt(lines, ks[0]) != shape then 0
    else 1 + FirstOtherShape(lines, ks[1..], shape)
  }

  /**
   * The answers on the listed lines, which must all have the shape already
   * seen (or the first one's); otherwise the first line of another shape is
   * blamed.
   */
  function ListedScan(lines: seq<string>, ks: seq<nat>, end: nat, shape: Option<Shape>): Scan
    requires AnswerList(lines, ks, end)
  {
    var expected := if shape.Some? then shape.value else if ks != [] then ShapeAt(lines, ks[0]) else Paren;
    var u := FirstOtherShape(lines, ks, expected);
    if u < |ks| then MixedAt(ks[u])
    else Scanned(ListedAnswers(lines, ks, end), if ks == [] then shape else Some(expected), end)
  }

  /**
   * The answer loop from line `i`, described directly: the answers are the
   * answer lines before the first reason marker, each running to the next
   * answer line or to the marker.
   */
  function ReferenceScan(lines: seq<string>, i: nat, shape: Option<Shape>): Scan
    requires i <= |lines|
  {
    var end := ReasonFrom(lines, i);
    ListedScan(lines, AnswerIndices(lines, i, end), end, shape)
  }

  /** The first listed answer, when it has the expected shape, goes in front of the others. */
  lemma ListedScanCons(lines: seq<string>, ks: seq<nat>, end: nat, shape: Option<Shape>)
    requires ks != [] && AnswerList(lines, ks, end)
    requires shape.None? || shape.value == ShapeAt(lines, ks[0])
    ensures AnswerList(lines, ks[1..], end)
    ensures ListedScan(lines, ks, end, shape)
         == PrependAll([AnswerFor(lines, ks[0], StopAfter(ks, 0, end))], ListedScan(lines, ks[1..], end, Some(ShapeAt(lines, ks[0]))))
  {
    var m := ShapeAt(lines, ks[0]);
    assert FirstOtherShape(lines, ks, m) == 1 + FirstOtherShape(lines, ks[1..], m);
  }

  /** A listed line whose shape differs from the one seen is blamed. */
  lemma ListedScanMixed(lines: seq<string>, ks: seq<nat>, end: nat, shape: Option<Shape>)
    requires ks != [] && AnswerList(lines, ks, end)
    requires shape.Some? && shape.value != ShapeAt(lines, ks[0])
    ensures ListedScan(lines, ks, end, shape) == MixedAt(ks[0])
  {
    assert FirstOtherShape(lines, ks, shape.value) == 0;
  }

  /** The first reason marker seen from `i` is also the first one seen from any later line up to it. */
  lemma ReasonFromLater(lines: seq<string>, i: nat, j: nat)
    requires i <= |lines| && i <= j <= ReasonFrom(lines, i)
    ensures ReasonFrom(lines, j) == ReasonFrom(lines, i)
  {
  }

  /** Lines without answers in front of `e` add no answer indices. */
  lemma {:induction false} AnswerIndicesSkip(lines: seq<string>, i: nat, e: nat, end: nat)
    requires i <= e <= end <= |lines|
    requires forall j {:trigger IsAnswerLine(lines[j])} :: i <= j < e ==> !IsAnswerLine(lines[j])
    ensures AnswerIndices(lines, i, end) == AnswerIndices(lines, e, end)
    decreases e - i
  {
    if i < e {
      assert !IsAnswerLine(lines[i]);
      AnswerIndicesSkip(lines, i + 1, e, end);
    }
  }

  /**
   * The continuation of the answer on line `i` ends exactly where the next
   * listed answer line starts, or at the reason marker when no answer line
   * is left before it.
   */
  lemma ContinuationStopsAtNext(lines: seq<string>, i: nat)
    requires i < |lines| && IsAnswerLine(lines[i])
    ensures var end := ReasonFrom(lines, i);
      var e := ContinuationEnd(lines, i + 1);
      var rest := AnswerIndices(lines, i + 1, end);
      && i < end && e <= end
      && AnswerIndices(lines, e, end) == rest
      && ReasonFrom(lines, e) == end
      && (if rest == [] then e == end else rest[0] == e)
  {
    AnswerLineIsNotReason(lines[i]);
    var end := ReasonFrom(lines, i);
    var e := ContinuationEnd(lines, i + 1);
    assert ReasonFrom(lines, i + 1) == end;
    if end < |lines| {
      assert EndsAnswer(lines[end]);
    }
    assert e <= end;
    forall j | i + 1 <= j < e
      ensures !IsAnswerLine(lines[j])
    {
      assert !EndsAnswer(lines[j]);
    }
    AnswerIndicesSkip(lines, i + 1, e, end);
    ReasonFromLater(lines, i, e);
    if e < end {
      assert EndsAnswer(lines[e]) && !IsReasonMarker(lines[e]);
      AnswerIndicesAtAnswer(lines, e, end);
    }
  }

  /** An answer line before `end` opens the list from it. */
  lemma AnswerIndicesAtAnswer(lines: seq<string>, e: nat, end: nat)
    requires e < end <= |lines| && IsAnswerLine(lines[e])
    ensures AnswerIndices(lines, e, end) != [] && AnswerIndices(lines, e, end)[0] == e
  {
  }

  /** The reference scan at an answer line of the expected shape: that answer, then the scan after its continuation. */
  lemma ReferenceTakes(lines: seq<string>, i: nat, shape: Option<Shape>)
    requires i < |lines| && IsAnswerLine(lines[i])
    requires shape.None? || shape.value == ShapeAt(lines, i)
    ensures var e := ContinuationEnd(lines, i + 1);
      ReferenceScan(lines, i, shape)
      == PrependAll([AnswerFor(lines, i, e)], ReferenceScan(lines, e, Some(ShapeAt(lines, i))))
  {
    var end := ReasonFrom(lines, i);
    ContinuationStopsAtNext(lines, i);
    var rest := AnswerIndices(lines, i + 1, end);
    var ks := AnswerIndices(lines, i, end);
    assert ks == [i] + rest;
    assert ks[1..] == rest;
    ListedScanCons(lines, ks, end, shape);
  }

  /** The reference scan at an answer line of another shape blames it. */
  lemma ReferenceMixed(lines: seq<string>, i: nat, shape: Option<Shape>)
    requires i < |lines| && IsAnswerLine(lines[i])
    requires shape.Some? && shape.value != ShapeAt(lines, i)
    ensures ReferenceScan(lines, i, shape) == MixedAt(i)
  {
    var end := ReasonFrom(lines, i);
    AnswerLineIsNotReason(lines[i]);
    assert ReasonFrom(lines, i + 1) == end;
    var ks := AnswerIndices(lines, i, end);
    assert ks == [i] + AnswerIndices(lines, i + 1, end);
    ListedScanMixed(lines, ks, end, shape);
  }

  /** The reference scan passes over a line that is neither an answer nor the reason marker. */
  lemma ReferenceSkips(lines: seq<string>, i: nat, shape: Option<Shape>)
    requires i < |lines| && !IsReasonMarker(lines[i]) && !IsAnswerLine(lines[i])
    ensures ReferenceScan(lines, i, shape) == ReferenceScan(lines, i + 1, shape)
  {
    var end := ReasonFrom(lines, i);
    assert ReasonFrom(lines, i + 1) == end;
    assert AnswerIndices(lines, i, end) == AnswerIndices(lines, i + 1, end);
  }

  /** The answer loop computes the reference description of it. */
  lemma {:induction false} ScanIsReference(lines: seq<string>, i: nat, shape: Option<Shape>)
    requires i <= |lines|
    ensures ScanAnswers(lines, i, shape) == ReferenceScan(lines, i, shape)
    decreases |lines| - i
  {
    if i == |lines| {
    } else if IsReasonMarker(lines[i]) {
      ScanStopsAtReason(lines, i, shape);
    } else if !IsAnswerLine(lines[i]) {
      ScanSkipsLine(lines, i, shape);
      ReferenceSkips(lines, i, shape);
      ScanIsReference(lines, i + 1, shape);
    } else if shape.Some? && shape.value != ShapeAt(lines, i) {
      ScanStopsAtMixed(lines, i, shape);
      ReferenceMixed(lines, i, shape);
    } else {
      ScanIsReference(lines, ContinuationEnd(lines, i + 1), Some(ShapeAt(lines, i)));
      TakesLikeReference(lines, i, shape);
    }
  }

  /** The step of `ScanIsReference` at an answer line of the expected shape. */
  lemma TakesLikeReference(lines: seq<string>, i: nat, shape: Option<Shape>)
    requires i < |lines| && !IsReasonMarker(lines[i]) && IsAnswerLine(lines[i])
    requires shape.None? || shape.value == ShapeAt(lines, i)
    requires var e := ContinuationEnd(lines, i + 1);
      ScanAnswers(lines, e, Some(ShapeAt(lines, i))) == ReferenceScan(lines, e, Some(ShapeAt(lines, i)))
    ensures ScanAnswers(lines, i, shape) == ReferenceScan(lines, i, shape)
  {
    ScanTakesAnswer(lines, i, shape);
    ReferenceTakes(lines, i, shape);
  }

  // ---------------------------------------------------------------------------
  // one block, described without the loops
  // ---------------------------------------------------------------------------

  /** The answer on line `k` is marked correct: its flag is `X` or `x`. */
  predicate MarkedCorrect(lines: seq<string>, k: nat)
    requires k < |lines| && IsAnswerLine(lines[k])
  {
    IsCorrectFlag(MatchAnswer(lines[k]).value.flag)
  }

  /** Some listed answer line is marked correct. */
  predicate SomeMarkedCorrect(lines: seq<string>, ks: seq<nat>)
    requires forall t :: 0 <= t < |ks| ==> ks[t] < |lines| && IsAnswerLine(lines[ks[t]])
  {
    exists t :: 0 <= t < |ks| && MarkedCorrect(lines, ks[t])
  }

  /** An answer is correct exactly when its line's flag is `X` or `x`. */
  lemma {:induction false} ListedAnswersCorrect(lines: seq<string>, ks: seq<nat>, end: nat)
    requires AnswerList(lines, ks, end)
    ensures AnyCorrect(ListedAnswers(lines, ks, end)) <==> SomeMarkedCorrect(lines, ks)
  {
    var r := ListedAnswers(lines, ks, end);
    forall t | 0 <= t < |ks|
      ensures r[t].isCorrect == MarkedCorrect(lines, ks[t])
    {
      ListedAnswerAt(lines, ks, end, t);
    }
    if AnyCorrect(r) {
      var a :| a in r && a.isCorrect;
      var t :| 0 <= t < |r| && r[t] == a;
      assert MarkedCorrect(lines, ks[t]);
    }
    if SomeMarkedCorrect(lines, ks) {
      var t :| 0 <= t < |ks| && MarkedCorrect(lines, ks[t]);
      assert r[t] in r;
    }
  }

  /** A block without answer lines yields no answers. */
  lemma BlockWithoutAnswerLines(lines: seq<string>)
    requires FirstAnswerFrom(lines, 0) == |lines|
    ensures AnswersOf(lines).Scanned? && AnswersOf(lines).answers == []
  {
    var end := ReasonFrom(lines, 0);
    ScanIsReference(lines, 0, None);
    AnswerIndicesSkip(lines, 0, end, end);
  }

  /** The answers of a block are those listed from its first answer line up to the reason marker after it. */
  lemma BlockAnswerLines(lines: seq<string>)
    requires FirstAnswerFrom(lines, 0) < |lines|
    ensures var k := FirstAnswerFrom(lines, 0);
      var end := ReasonFrom(lines, k);
      var ks := AnswerIndices(lines, k, end);
      && k < end && ks != [] && ks[0] == k
      && AnswersOf(lines) == ListedScan(lines, ks, end, None)
  {
    var k := FirstAnswerFrom(lines, 0);
    AnswerLineIsNotReason(lines[k]);
    var end := ReasonFrom(lines, k);
    assert k < end;
    assert AnswerIndices(lines, k, end) == [k] + AnswerIndices(lines, k + 1, end);
    assert AnswersOf(lines) == ScanAnswers(lines, k, None);
    ScanIsReference(lines, k, None);
  }

  /**
   * Which check a block fails and at which of its lines, or the question it
   * holds: no question text is blamed on line 0; no answer line at all on
   * line 0; the first answer line whose marker shape differs from the first
   * one's on that line; no answer marked correct on the first answer line.
   * Otherwise the question holds the text before the first answer line, one
   * answer per answer line before the reason marker, the reason after the
   * marker, and the type named by the first answer's shape.
   */
  lemma CheckBlockCases(lines: seq<string>)
    ensures var c := CheckBlock(lines);
      var text := QuestionTextOf(lines);
      var k := FirstAnswerFrom(lines, 0);
      && (text == "" ==> c == Problem(0, NoQuestionTextMessage))
      && (text != "" && k == |lines| ==> c == Problem(0, NoAnswersMessage))
      && (text != "" && k < |lines| ==>
            var end := ReasonFrom(lines, k);
            var ks := AnswerIndices(lines, k, end);
            var shape := ShapeAt(lines, k);
            var u := FirstOtherShape(lines, ks, shape);
            && (u < |ks| ==> c == Problem(ks[u], MixedTypesMessage))
            && (u == |ks| && !SomeMarkedCorrect(lines, ks) ==> c == Problem(k, NoCorrectMessage))
            && (u == |ks| && SomeMarkedCorrect(lines, ks) ==>
                  c == Fine(Question(text, ListedAnswers(lines, ks, end), ReasonText(lines, end), ShapeName(shape)))))
  {
    var k := FirstAnswerFrom(lines, 0);
    if QuestionTextOf(lines) != "" {
      if k == |lines| {
        BlockWithoutAnswerLines(lines);
      } else {
        BlockAnswerLines(lines);
        var end := ReasonFrom(lines, k);
        var ks := AnswerIndices(lines, k, end);
        ListedAnswersCorrect(lines, ks, end);
        assert AnswerStart(lines) == k;
        assert FirstAnswerFrom(lines, k) == k;
      }
    }
  }

  /** The properties every parsed question has. */
  predicate WellFormed(q: Question) {
    && q.text != "" && IsStripped(q.text)
    && q.answers != [] && AnyCorrect(q.answers)
    && (forall t :: 0 <= t < |q.answers| ==> IsStripped(q.answers[t].text))
    && IsStripped(q.reason)
    && (q.questionType == "single" || q.questionType == "multiple")
  }

  /**
   * The question a block with text, answer lines of one shape and a correct
   * answer yields is well-formed.
   */
  lemma ListedQuestionWellFormed(lines: seq<string>, k: nat)
    requires k < |lines| && k == FirstAnswerFrom(lines, 0) && QuestionTextOf(lines) != ""
    requires SomeMarkedCorrect(lines, AnswerIndices(lines, k, ReasonFrom(lines, k)))
    ensures var end := ReasonFrom(lines, k);
      var ks := AnswerIndices(lines, k, end);
      WellFormed(Question(QuestionTextOf(lines), ListedAnswers(lines, ks, end), ReasonText(lines, end), ShapeName(ShapeAt(lines, k))))
  {
    var end := ReasonFrom(lines, k);
    var ks := AnswerIndices(lines, k, end);
    ListedAnswersCorrect(lines, ks, end);
    assert k in ks;
  }

  /**
   * A block that passes the checks holds a well-formed question whose type
   * is named by the marker shape of its first answer line.
   */
  lemma CheckedQuestionWellFormed(lines: seq<string>)
    requires CheckBlock(lines).Fine?
    ensures var k := FirstAnswerFrom(lines, 0);
      && k < |lines|
      && WellFormed(CheckBlock(lines).question)
      && CheckBlock(lines).question.questionType == ShapeName(ShapeAt(lines, k))
  {
    CheckBlockCases(lines);
    var k := FirstAnswerFrom(lines, 0);
    if k < |lines| {
      ListedQuestionWellFormed(lines, k);
    }
  }

  /** The listed lines increase: an earlier position holds a smaller line index. */
  lemma {:induction false} ListedIncreasing(lines: seq<string>, ks: seq<nat>, end: nat, t: nat, v: nat)
    requires AnswerList(lines, ks, end) && t < v < |ks|
    ensures ks[t] < ks[v]
    decreases v - t
  {
    if t + 1 < v {
      ListedIncreasing(lines, ks, end, t + 1, v);
    }
  }

  /**
   * The lines of answer `t` after its marker line -- its continuation --
   * hold neither an answer line nor the reason marker: the continuation is
   * as long as it can be.
   */
  lemma ContinuationLines(lines: seq<string>, k: nat, t: nat, j: nat)
    requires k <= |lines|
    requires var ks := AnswerIndices(lines, k, ReasonFrom(lines, k));
      t < |ks| && ks[t] < j < StopAfter(ks, t, ReasonFrom(lines, k))
    ensures !IsAnswerLine(lines[j]) && !IsReasonMarker(lines[j])
  {
    var end := ReasonFrom(lines, k);
    var ks := AnswerIndices(lines, k, end);
    if IsAnswerLine(lines[j]) {
      AnswerIndicesComplete(lines, k, end, j);
      var v :| 0 <= v < |ks| && ks[v] == j;
      if v <= t {
        if v < t {
          ListedIncreasing(lines, ks, end, v, t);
        }
      } else {
        if t + 1 < v {
          ListedIncreasing(lines, ks, end, t + 1, v);
        }
      }
    }
  }

  // ---------------------------------------------------------------------------
  // the whole file, described without the loop
  // ---------------------------------------------------------------------------

  /**
   * The counted line before piece `j`: every earlier piece counts its line
   * feeds plus one, and one more for the separator after it.
   */
  function CountedStart(pieces: seq<string>, j: nat): nat
    requires j <= |pieces|
  {
    if j == 0 then 0 else CountedStart(pieces, j - 1) + CountChar(pieces[j - 1], '\n') + 2
  }

  /** What one turn of the block loop makes of piece `j`: nothing when it is blank, else its block parsed on its own. */
  type PieceOutcome = Option<Result<Question, QuizParseError>>

  /** Piece `j` on its own: blank, or its stripped block, numbered `j + 1`, parsed at the counted line before it. */
  function OutcomeOf(pieces: seq<string>, j: nat): PieceOutcome
    requires j < |pieces|
  {
    var block := Strip(pieces[j]);
    if block == "" then None else Some(ParseBlock(block, j + 1, CountedStart(pieces, j)))
  }

  /** Every piece on its own, in piece order. */
  function PieceOutcomes(pieces: seq<string>): (outcomes: seq<PieceOutcome>)
    ensures |outcomes| == |pieces|
  {
    seq(|pieces|, j requires 0 <= j < |pieces| => OutcomeOf(pieces, j))
  }

  /** `outcomes` holds every piece on its own. */
  predicate OutcomesOf(pieces: seq<string>, outcomes: seq<PieceOutcome>) {
    && |outcomes| == |pieces|
    && forall j {:trigger OutcomeOf(pieces, j)} :: 0 <= j < |pieces| ==> outcomes[j] == OutcomeOf(pieces, j)
  }

  lemma PieceOutcomesOf(pieces: seq<string>)
    ensures OutcomesOf(pieces, PieceOutcomes(pieces))
  {
  }

  /** Piece `j` is not blank and its block fails to parse. */
  predicate Fails(outcomes: seq<PieceOutcome>, j: nat)
    requires j < |outcomes|
  {
    outcomes[j].Some? && outcomes[j].value.Failure?
  }

  /** Index of the first failing piece at or after `i`, or `|outcomes|`. */
  function FirstFailing(outcomes: seq<PieceOutcome>, i: nat): (f: nat)
    requires i <= |outcomes|
    ensures i <= f <= |outcomes|
    ensures f < |outcomes| ==> Fails(outcomes, f)
    ensures forall j {:trigger Fails(outcomes, j)} :: i <= j < f ==> !Fails(outcomes, j)
    decreases |outcomes| - i
  {
    if i == |outcomes| || Fails(outcomes, i) then i else FirstFailing(outcomes, i + 1)
  }

  /** The questions of the pieces in `[i, j)` that are not blank and parse, in piece order. */
  function QuestionsIn(outcomes: seq<PieceOutcome>, i: nat, j: nat): seq<Question>
    requires i <= j <= |outcomes|
    decreases j - i
  {
    if i == j then []
    else (if outcomes[i].Some? && outcomes[i].value.Success? then [outcomes[i].value.value] else [])
         + QuestionsIn(outcomes, i + 1, j)
  }

  /** The error of piece `f` when it fails, none when `f` is past the last piece. */
  function FailureOf(outcomes: seq<PieceOutcome>, f: nat): Option<QuizParseError>
    requires f <= |outcomes|
    requires f < |outcomes| ==> Fails(outcomes, f)
  {
    if f < |outcomes| then Some(outcomes[f].value.error) else None
  }

  /** The counted line of the piece the loop ends on, or `lineOffset` when it has no pieces left. */
  function EndOffset(pieces: seq<string>, i: nat, f: nat, lineOffset: nat): nat
    requires i <= |pieces| && f <= |pieces|
  {
    if f < |pieces| then CountedStart(pieces, f)
    else if i < |pieces| then CountedStart(pieces, |pieces| - 1)
    else lineOffset
  }

  /**
   * The block loop from piece `i`, described directly: the questions of the
   * pieces before the first failing one, that piece's error, and the counted
   * line of the piece the loop ended on.
   */
  function ReferenceBlocks(pieces: seq<string>, outcomes: seq<PieceOutcome>, i: nat, lineOffset: nat): BlocksOutcome
    requires i <= |pieces| == |outcomes|
  {
    var f := FirstFailing(outcomes, i);
    BlocksOutcome(QuestionsIn(outcomes, i, f), FailureOf(outcomes, f), EndOffset(pieces, i, f, lineOffset))
  }

  lemma ReferenceSkipsBlank(pieces: seq<string>, outcomes: seq<PieceOutcome>, i: nat, lineOffset: nat)
    requires i < |pieces| == |outcomes| && outcomes[i].None?
    ensures ReferenceBlocks(pieces, outcomes, i, lineOffset) == ReferenceBlocks(pieces, outcomes, i + 1, CountedStart(pieces, i))
  {
    var f := FirstFailing(outcomes, i);
    assert f == FirstFailing(outcomes, i + 1);
    assert QuestionsIn(outcomes, i, f) == QuestionsIn(outcomes, i + 1, f);
    assert EndOffset(pieces, i, f, lineOffset) == EndOffset(pieces, i + 1, f, CountedStart(pieces, i));
  }

  lemma ReferenceStopsAtFailing(pieces: seq<string>, outcomes: seq<PieceOutcome>, i: nat, lineOffset: nat)
    requires i < |pieces| == |outcomes| && Fails(outcomes, i)
    ensures ReferenceBlocks(pieces, outcomes, i, lineOffset)
         == BlocksOutcome([], Some(outcomes[i].value.error), CountedStart(pieces, i))
  {
  }

  lemma ReferenceKeepsQuestion(pieces: seq<string>, outcomes: seq<PieceOutcome>, i: nat, lineOffset: nat)
    requires i < |pieces| == |outcomes| && outcomes[i].Some? && outcomes[i].value.Success?
    ensures ReferenceBlocks(pieces, outcomes, i, lineOffset)
         == Combine([outcomes[i].value.value], ReferenceBlocks(pieces, outcomes, i + 1, CountedStart(pieces, i)))
  {
    var f := FirstFailing(outcomes, i);
    assert f == FirstFailing(outcomes, i + 1);
    assert QuestionsIn(outcomes, i, f) == [outcomes[i].value.value] + QuestionsIn(outcomes, i + 1, f);
  }

  /**
   * One turn of the block loop agrees with the reference, given that the
   * turns after it do.
   */
  lemma PieceStep(pieces: seq<string>, outcomes: seq<PieceOutcome>, i: nat, currentLine: nat, lineOffset: nat)
    requires OutcomesOf(pieces, outcomes) && i < |pieces| && currentLine == CountedStart(pieces, i)
    requires AfterPiece(pieces, i, currentLine) == ReferenceBlocks(pieces, outcomes, i + 1, currentLine)
    ensures ParseBlocks(pieces, i, currentLine, lineOffset) == ReferenceBlocks(pieces, outcomes, i, lineOffset)
  {
    assert outcomes[i] == OutcomeOf(pieces, i);
    if outcomes[i].None? {
      BlankPieceSkipped(pieces, i, currentLine, lineOffset);
      ReferenceSkipsBlank(pieces, outcomes, i, lineOffset);
    } else if outcomes[i].value.Failure? {
      FailingPieceStops(pieces, i, currentLine, lineOffset, outcomes[i].value.error);
      ReferenceStopsAtFailing(pieces, outcomes, i, lineOffset);
    } else {
      ParsedPieceKept(pieces, i, currentLine, lineOffset, outcomes[i].value.value);
      ReferenceKeepsQuestion(pieces, outcomes, i, lineOffset);
    }
  }

  /** The block loop after piece `i` resumes at the counted line before piece `i + 1`. */
  lemma AfterPieceAtNext(pieces: seq<string>, i: nat, currentLine: nat)
    requires i < |pieces| && currentLine == CountedStart(pieces, i)
    ensures AfterPiece(pieces, i, currentLine) == ParseBlocks(pieces, i + 1, CountedStart(pieces, i + 1), currentLine)
  {
    if i + 1 < |pieces| {
      assert currentLine + PieceLineCount(pieces, i) == CountedStart(pieces, i + 1);
    }
  }

  /** The block loop from piece `i` at its counted line agrees with the reference. */
  lemma {:induction false} BlocksReference(pieces: seq<string>, outcomes: seq<PieceOutcome>, i: nat, lineOffset: nat)
    requires OutcomesOf(pieces, outcomes) && i <= |pieces|
    ensures ParseBlocks(pieces, i, CountedStart(pieces, i), lineOffset) == ReferenceBlocks(pieces, outcomes, i, lineOffset)
    decreases |pieces| - i
  {
    if i < |pieces| {
      BlocksReference(pieces, outcomes, i + 1, CountedStart(pieces, i));
      AfterPieceAtNext(pieces, i, CountedStart(pieces, i));
      PieceStep(pieces, outcomes, i, CountedStart(pieces, i), lineOffset);
    }
  }

  // ---------------------------------------------------------------------------
  // what `parse` yields for a whole file
  // ---------------------------------------------------------------------------

  /**
   * `parse` fails with the error of the first non-blank piece whose block
   * fails; otherwise it yields the questions of the non-blank pieces in
   * order, after those the parser already held, or the "no questions"
   * error when there are none at all.
   */
  lemma ParseContentCases(content: string, held: seq<Question>)
    ensures var pieces := Split(content, QuestionSeparator);
      var outcomes := PieceOutcomes(pieces);
      var f := FirstFailing(outcomes, 0);
      var found := held + QuestionsIn(outcomes, 0, f);
      && (f < |pieces| ==> ParseContent(content, held) == ParseFailed(outcomes[f].value.error))
      && (f == |pieces| && found == [] ==> ParseContent(content, held) == ParseFailed(QuizParseError(NoQuestionsMessage, None)))
      && (f == |pieces| && found != [] ==> ParseContent(content, held) == Parsed(found))
  {
    var pieces := Split(content, QuestionSeparator);
    PieceOutcomesOf(pieces);
    BlocksReference(pieces, PieceOutcomes(pieces), 0, 0);
  }

  /**
   * The block loop's questions, error and final line offset do not depend
   * on the line offset a reused parser starts with.
   */
  lemma BlocksOfIgnoresOffset(content: string, lineOffset: nat)
    ensures BlocksOf(content, lineOffset) == BlocksOf(content, 0)
  {
    var pieces := Split(content, QuestionSeparator);
    PieceOutcomesOf(pieces);
    BlocksReference(pieces, PieceOutcomes(pieces), 0, 0);
    BlocksReference(pieces, PieceOutcomes(pieces), 0, lineOffset);
  }

  /** The question a non-blank piece yields, when it parses, is well-formed. */
  lemma OutcomeWellFormed(pieces: seq<string>, j: nat)
    requires j < |pieces| && OutcomeOf(pieces, j).Some? && OutcomeOf(pieces, j).value.Success?
    ensures WellFormed(OutcomeOf(pieces, j).value.value)
  {
    CheckedQuestionWellFormed(Split(Strip(pieces[j]), "\n"));
  }

  /** The outcome held for piece `j` is blank exactly when the piece is, and a question it holds is well-formed. */
  lemma OutcomeAt(pieces: seq<string>, outcomes: seq<PieceOutcome>, j: nat)
    requires OutcomesOf(pieces, outcomes) && j < |pieces|
    ensures outcomes[j].None? <==> Strip(pieces[j]) == ""
    ensures outcomes[j].Some? && outcomes[j].value.Success? ==> WellFormed(outcomes[j].value.value)
  {
    assert outcomes[j] == OutcomeOf(pieces, j);
    if outcomes[j].Some? && outcomes[j].value.Success? {
      OutcomeWellFormed(pieces, j);
    }
  }

  lemma {:induction false} QuestionsInWellFormed(pieces: seq<string>, outcomes: seq<PieceOutcome>, i: nat, j: nat)
    requires OutcomesOf(pieces, outcomes) && i <= j <= |pieces|
    ensures forall q :: q in QuestionsIn(outcomes, i, j) ==> WellFormed(q)
    decreases j - i
  {
    if i < j {
      QuestionsInWellFormed(pieces, outcomes, i + 1, j);
      OutcomeAt(pieces, outcomes, i);
    }
  }

  /** Every question `parse` yields for a file is well-formed, and it yields at least one. */
  lemma ParsedQuestionsWellFormed(content: string)
    ensures var r := ParseContent(content, []);
      r.Parsed? ==> r.questions != [] && forall q :: q in r.questions ==> WellFormed(q)
  {
    var pieces := Split(content, QuestionSeparator);
    var outcomes := PieceOutcomes(pieces);
    ParseContentCases(content, []);
    PieceOutcomesOf(pieces);
    QuestionsInWellFormed(pieces, outcomes, 0, FirstFailing(outcomes, 0));
    assert [] + QuestionsIn(outcomes, 0, FirstFailing(outcomes, 0)) == QuestionsIn(outcomes, 0, FirstFailing(outcomes, 0));
  }

  /** Number of pieces in `[i, |pieces|)` that are not blank once stripped. */
  function NonBlankFrom(pieces: seq<string>, i: nat): nat
    requires i <= |pieces|
    decreases |pieces| - i
  {
    if i == |pieces| then 0 else (if Strip(pieces[i]) == "" then 0 else 1) + NonBlankFrom(pieces, i + 1)
  }

  lemma {:induction false} QuestionsInCount(pieces: seq<string>, outcomes: seq<PieceOutcome>, i: nat)
    requires OutcomesOf(pieces, outcomes) && i <= |pieces| && FirstFailing(outcomes, i) == |pieces|
    ensures |QuestionsIn(outcomes, i, |pieces|)| == NonBlankFrom(pieces, i)
    decreases |pieces| - i
  {
    if i < |pieces| {
      assert !Fails(outcomes, i);
      assert FirstFailing(outcomes, i + 1) == |pieces|;
      QuestionsInCount(pieces, outcomes, i + 1);
      OutcomeAt(pieces, outcomes, i);
    }
  }

  /** A file that parses yields one question per non-blank piece. */
  lemma ParsedQuestionCount(content: string)
    ensures var r := ParseContent(content, []);
      r.Parsed? ==> |r.questions| == NonBlankFrom(Split(content, QuestionSeparator), 0)
  {
    var pieces := Split(content, QuestionSeparator);
    var outcomes := PieceOutcomes(pieces);
    ParseContentCases(content, []);
    PieceOutcomesOf(pieces);
    if FirstFailing(outcomes, 0) == |pieces| {
      QuestionsInCount(pieces, outcomes, 0);
      assert [] + QuestionsIn(outcomes, 0, |pieces|) == QuestionsIn(outcomes, 0, |pieces|);
    }
  }

  /** An empty file has no questions: the error carries no position. */
  lemma EmptyFileHasNoQuestions(filePath: string)
    ensures ParseFile(filePath, Some("")) == ParseFailed(QuizParseError(NoQuestionsMessage, None))
  {
    assert Split("", QuestionSeparator) == [""];
    assert Strip("") == "";
  }
}
