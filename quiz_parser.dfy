/**
 * The quiz markdown parser.  A quiz file is split on the separator "---"
 * into question blocks; each non-blank block holds question text, then
 * answer lines written `- (X) text` (single choice) or `- [X] text`
 * (multiple choice), each possibly followed by continuation lines, and an
 * optional `# reason` section.  A malformed block stops the parse with an
 * error that names the offending line, its block and two lines of context
 * on either side.
 *
 * The functions here follow the parser's loops step by step; the class
 * `QuizParser` holds the parser's state and its methods are proved equal to
 * those functions.  What the functions mean is proved in `QuizParserFacts`.
 */
module QuizParser {
  import opened Wrappers
  import opened Text

  // ---------------------------------------------------------------------------
  // records
  // ---------------------------------------------------------------------------

  /** An answer option and whether it is marked correct. */
  datatype Answer = Answer(text: string, isCorrect: bool)

  /** A question; `questionType` is "single" or "multiple". */
  datatype Question = Question(text: string, answers: seq<Answer>, reason: string, questionType: string)

  /** Where and why a block failed to parse. */
  datatype ParseError = ParseError(
    lineNumber: int,
    lineContent: string,
    errorMessage: string,
    blockNumber: int,
    contextBefore: seq<string>,
    contextAfter: seq<string>)

  /** The parse failure: a message, with the line details when there are any. */
  datatype QuizParseError = QuizParseError(message: string, parseError: Option<ParseError>)

  /**
   * `ks` lists, in increasing order, exactly the indices of the correct
   * answers.
   */
  predicate CorrectIndexList(answers: seq<Answer>, ks: seq<nat>) {
    && (forall j :: 0 <= j < |ks| ==> ks[j] < |answers|)
    && (forall j, l :: 0 <= j < l < |ks| ==> ks[j] < ks[l])
    && (forall k :: 0 <= k < |answers| ==> (answers[k].isCorrect <==> k in ks))
  }

  /** When answer `i` is correct it heads the list, and the rest lists the correct answers after it. */
  lemma CorrectFirstListed(answers: seq<Answer>, i: nat, ks: seq<nat>)
    requires i < |answers| && answers[i].isCorrect
    requires forall j :: 0 <= j < |ks| ==> i <= ks[j] < |answers|
    requires forall j, l :: 0 <= j < l < |ks| ==> ks[j] < ks[l]
    requires forall k :: i <= k < |answers| ==> (answers[k].isCorrect <==> k in ks)
    ensures |ks| > 0 && ks[0] == i
    ensures forall j :: 0 <= j < |ks[1..]| ==> i + 1 <= ks[1..][j] < |answers|
    ensures forall j, l :: 0 <= j < l < |ks[1..]| ==> ks[1..][j] < ks[1..][l]
    ensures forall k :: i + 1 <= k < |answers| ==> (answers[k].isCorrect <==> k in ks[1..])
  {
    assert i in ks;
    var t :| 0 <= t < |ks| && ks[t] == i;
    assert ks[0] <= ks[t];
    forall k | i + 1 <= k < |answers|
      ensures k in ks <==> k in ks[1..]
    {
      if k in ks {
        var u :| 0 <= u < |ks| && ks[u] == k;
        assert u != 0;
        assert ks[1..][u - 1] == k;
      }
    }
  }

  /** An increasing list of indices in `[lo, hi)` has at most `hi - lo` entries. */
  lemma {:induction false} IndexListLength(ks: seq<nat>, lo: nat, hi: nat)
    requires lo <= hi
    requires forall j :: 0 <= j < |ks| ==> lo <= ks[j] < hi
    requires forall j, l :: 0 <= j < l < |ks| ==> ks[j] < ks[l]
    ensures |ks| <= hi - lo
  {
    if ks != [] {
      IndexListLength(ks[1..], ks[0] + 1, hi);
    }
  }

  /** How a call of `parse` ends: the questions, a parse failure, or a missing file. */
  datatype ParseOutcome =
    | Parsed(questions: seq<Question>)
    | ParseFailed(error: QuizParseError)
    | FileNotFound(message: string)

  const QuestionSeparator := "---"
  const ReasonMarker := "# reason"
  const NoQuestionTextMessage := "No question text found"
  const MixedTypesMessage := "Mixed answer types: Cannot mix ( ) and [ ] formats in same question"
  const NoAnswersMessage := "No answers found. Expected format: '- (X) text' or '- [X] text'"
  const NoCorrectMessage := "No correct answer marked. Use (X) or [X] to mark correct answers"
  const NoQuestionsMessage := "No questions found in the quiz file"
  const FileNotFoundPrefix := "Quiz file not found: "

  // ---------------------------------------------------------------------------
  // answer lines
  // ---------------------------------------------------------------------------

  /** The two bracket shapes of an answer marker: `( )` and `[ ]`. */
  datatype Shape = Paren | Bracket

  /** The question type a marker shape stands for. */
  function ShapeName(shape: Shape): string {
    match shape
    case Paren => "single"
    case Bracket => "multiple"
  }

  function Open(shape: Shape): char {
    match shape
    case Paren => '('
    case Bracket => '['
  }

  function Close(shape: Shape): char {
    match shape
    case Paren => ')'
    case Bracket => ']'
  }

  /** A matched answer marker: its shape, the flag inside it and the text after it. */
  datatype Marker = Marker(shape: Shape, flag: char, rest: string)

  /** The characters allowed inside a marker: `X`, `x` or a space. */
  predicate IsFlag(c: char) {
    c == 'X' || c == 'x' || c == ' '
  }

  /** An upper-cased flag equal to "X" marks the answer correct. */
  predicate IsCorrectFlag(c: char) {
    c == 'X' || c == 'x'
  }

  /**
   * The pattern `^-\s+<open>([Xx ])<close>\s*(.*)$` applied to a line: a
   * dash, at least one whitespace character, the marker, then the text with
   * its leading whitespace dropped.  Lines never hold a line feed, so `.*`
   * reaches the end of the line.
   */
  function MatchShape(line: string, shape: Shape): (m: Option<Marker>)
    ensures m.Some? ==> m.value.shape == shape && IsFlag(m.value.flag) && |line| >= 5 && line[0] == '-'
  {
    if |line| < 2 || line[0] != '-' || !IsSpace(line[1]) then None
    else MatchMarkerAt(line, 2, shape)
  }

  /** The rest of the pattern from index `i` on: more whitespace, then the marker and the text. */
  function MatchMarkerAt(line: string, i: nat, shape: Shape): (m: Option<Marker>)
    requires i <= |line|
    ensures m.Some? ==> m.value.shape == shape && IsFlag(m.value.flag) && i + 3 <= |line|
    decreases |line| - i
  {
    if i < |line| && IsSpace(line[i]) then MatchMarkerAt(line, i + 1, shape)
    else if i + 3 <= |line| && line[i] == Open(shape) && IsFlag(line[i + 1]) && line[i + 2] == Close(shape)
    then Some(Marker(shape, line[i + 1], LStrip(line[i + 3..])))
    else None
  }

  /** The single-choice pattern first, the multiple-choice pattern second. */
  function MatchAnswer(line: string): (m: Option<Marker>)
    ensures m.Some? ==> IsFlag(m.value.flag) && |line| >= 5 && line[0] == '-'
  {
    if MatchShape(line, Paren).Some? then MatchShape(line, Paren) else MatchShape(line, Bracket)
  }

  /** A line matches one of the two answer patterns. */
  predicate IsAnswerLine(line: string) {
    MatchShape(line, Paren).Some? || MatchShape(line, Bracket).Some?
  }

  /**
   * The line, stripped and lower-cased, equals the lower-cased reason
   * marker; the marker is already lower case (`ReasonMarkerIsLowerCase`),
   * and `LowerEqualsIsLower` relates the comparison to `Lower`.
   */
  predicate IsReasonMarker(line: string) {
    LowerEquals(Strip(line), ReasonMarker)
  }

  lemma ReasonMarkerIsLowerCase()
    ensures Lower(ReasonMarker) == ReasonMarker
  {
  }

  // ---------------------------------------------------------------------------
  // searches over the lines of a block
  // ---------------------------------------------------------------------------

  /** Index of the first answer line at or after `i`, or `|lines|`. */
  function FirstAnswerFrom(lines: seq<string>, i: nat): (k: nat)
    requires i <= |lines|
    ensures i <= k <= |lines|
    ensures k < |lines| ==> IsAnswerLine(lines[k])
    ensures forall j {:trigger IsAnswerLine(lines[j])} :: i <= j < k ==> !IsAnswerLine(lines[j])
    decreases |lines| - i
  {
    if i == |lines| || IsAnswerLine(lines[i]) then i else FirstAnswerFrom(lines, i + 1)
  }

  /** A line that ends an answer's continuation: the next answer line or the reason marker. */
  predicate EndsAnswer(line: string) {
    IsAnswerLine(line) || IsReasonMarker(line)
  }

  /** Index of the first answer line or reason marker at or after `i`, or `|lines|`. */
  function ContinuationEnd(lines: seq<string>, i: nat): (k: nat)
    requires i <= |lines|
    ensures i <= k <= |lines|
    ensures k < |lines| ==> EndsAnswer(lines[k])
    ensures forall j {:trigger EndsAnswer(lines[j])} :: i <= j < k ==> !EndsAnswer(lines[j])
    decreases |lines| - i
  {
    if i == |lines| || EndsAnswer(lines[i]) then i
    else ContinuationEnd(lines, i + 1)
  }

  /** The text of an answer: its first-line text (when not empty) and its continuation lines, joined and stripped. */
  function AnswerText(first: string, continuation: seq<string>): string {
    Strip(Join((if first != "" then [first] else []) + continuation, "\n"))
  }

  /** The answer written on line `k`, continued on the lines up to `end`. */
  function AnswerFor(lines: seq<string>, k: nat, end: nat): Answer
    requires k < end <= |lines| && IsAnswerLine(lines[k])
  {
    var m := MatchAnswer(lines[k]).value;
    Answer(AnswerText(m.rest, lines[k + 1..end]), IsCorrectFlag(m.flag))
  }

  // ---------------------------------------------------------------------------
  // the answer loop
  // ---------------------------------------------------------------------------

  /**
   * The answer loop's result: the answers, the marker shape seen (if any)
   * and where the reason marker stands (`|lines|` when absent) -- or the
   * index of the first answer whose shape differs from the earlier ones.
   */
  datatype Scan =
    | Scanned(answers: seq<Answer>, shape: Option<Shape>, reasonStart: nat)
    | MixedAt(index: nat)

  /** Puts answers gathered earlier in front of a scan's answers. */
  function PrependAll(prefix: seq<Answer>, s: Scan): Scan {
    match s
    case MixedAt(j) => MixedAt(j)
    case Scanned(answers, shape, rs) => Scanned(prefix + answers, shape, rs)
  }

  /** The answer loop from line `i` on, with the shape seen so far. */
  function ScanAnswers(lines: seq<string>, i: nat, shape: Option<Shape>): (s: Scan)
    requires i <= |lines|
    ensures s.MixedAt? ==> i <= s.index < |lines| && IsAnswerLine(lines[s.index])
    ensures s.Scanned? ==> i <= s.reasonStart <= |lines|
    decreases |lines| - i
  {
    if i == |lines| then Scanned([], shape, |lines|)
    else if IsReasonMarker(lines[i]) then Scanned([], shape, i)
    else match MatchAnswer(lines[i])
      case None => ScanAnswers(lines, i + 1, shape)
      case Some(m) =>
        if shape.Some? && shape.value != m.shape then MixedAt(i)
        else
          var e := ContinuationEnd(lines, i + 1);
          PrependAll([AnswerFor(lines, i, e)], ScanAnswers(lines, e, Some(m.shape)))
  }

  /** The answer loop stops at the reason marker. */
  lemma ScanStopsAtReason(lines: seq<string>, i: nat, shape: Option<Shape>)
    requires i < |lines| && IsReasonMarker(lines[i])
    ensures ScanAnswers(lines, i, shape) == Scanned([], shape, i)
  {
  }

  /** The answer loop passes over a line that is neither an answer nor the reason marker. */
  lemma ScanSkipsLine(lines: seq<string>, i: nat, shape: Option<Shape>)
    requires i < |lines| && !IsReasonMarker(lines[i]) && !IsAnswerLine(lines[i])
    ensures ScanAnswers(lines, i, shape) == ScanAnswers(lines, i + 1, shape)
  {
  }

  /** The answer loop ends at an answer whose shape differs from the one seen. */
  lemma ScanStopsAtMixed(lines: seq<string>, i: nat, shape: Option<Shape>)
    requires i < |lines| && !IsReasonMarker(lines[i]) && IsAnswerLine(lines[i])
    requires shape.Some? && shape.value != MatchAnswer(lines[i]).value.shape
    ensures ScanAnswers(lines, i, shape) == MixedAt(i)
  {
  }

  /** The answer loop takes an answer of the shape seen so far (or the first answer) with its continuation. */
  lemma ScanTakesAnswer(lines: seq<string>, i: nat, shape: Option<Shape>)
    requires i < |lines| && !IsReasonMarker(lines[i]) && IsAnswerLine(lines[i])
    requires shape.None? || shape.value == MatchAnswer(lines[i]).value.shape
    ensures var e := ContinuationEnd(lines, i + 1);
      ScanAnswers(lines, i, shape)
      == PrependAll([AnswerFor(lines, i, e)], ScanAnswers(lines, e, Some(MatchAnswer(lines[i]).value.shape)))
  {
  }

  /** `question_type or "single"`. */
  function TypeName(shape: Option<Shape>): string {
    match shape
    case None => "single"
    case Some(s) => ShapeName(s)
  }

  /** The lines of the reason: those after the reason marker (none when there is no marker). */
  function ReasonLines(lines: seq<string>, reasonStart: nat): seq<string>
    requires reasonStart <= |lines|
  {
    lines[if reasonStart < |lines| then reasonStart + 1 else |lines|..]
  }

  /** The reason: the lines after the reason marker, joined and stripped. */
  function ReasonText(lines: seq<string>, reasonStart: nat): (r: string)
    requires reasonStart <= |lines|
    ensures IsStripped(r)
    ensures reasonStart == |lines| ==> r == ""
  {
    Strip(Join(ReasonLines(lines, reasonStart), "\n"))
  }

  /** Some answer is marked correct. */
  predicate AnyCorrect(answers: seq<Answer>) {
    exists a :: a in answers && a.isCorrect
  }

  // ---------------------------------------------------------------------------
  // errors
  // ---------------------------------------------------------------------------

  function Min(a: int, b: int): int {
    if a <= b then a else b
  }

  /** The up-to-two block lines before line `idx` that exist. */
  function ContextBefore(lines: seq<string>, idx: nat): seq<string> {
    var lo := if idx >= 2 then idx - 2 else 0;
    lines[Min(lo, |lines|)..Min(idx, |lines|)]
  }

  /** The up-to-two block lines after line `idx` that exist. */
  function ContextAfter(lines: seq<string>, idx: nat): seq<string> {
    if idx + 1 <= |lines| then lines[idx + 1..Min(|lines|, idx + 3)] else []
  }

  /**
   * The error raised for line `idx` of a block whose first line is file line
   * `lineOffset + 1`: the line number, the message naming it, and up to two
   * lines of context on either side (`ErrorAtDescribes` states them).
   */
  function ErrorAt(lineOffset: nat, idx: nat, lineContent: string, message: string,
                   blockNumber: nat, lines: seq<string>): (e: QuizParseError)
    ensures e.parseError.Some? && e.parseError.value.lineNumber == lineOffset + idx + 1
  {
    var n := lineOffset + idx + 1;
    QuizParseError(
      "Error at line " + NatToString(n) + ": " + message,
      Some(ParseError(n, lineContent, message, blockNumber, ContextBefore(lines, idx), ContextAfter(lines, idx))))
  }

  lemma ErrorAtDescribes(lineOffset: nat, idx: nat, lineContent: string, message: string,
                         blockNumber: nat, lines: seq<string>)
    ensures var e := ErrorAt(lineOffset, idx, lineContent, message, blockNumber, lines);
      && e.message == "Error at line " + NatToString(lineOffset + idx + 1) + ": " + message
      && e.parseError.value.lineContent == lineContent
      && e.parseError.value.errorMessage == message
      && e.parseError.value.blockNumber == blockNumber
      && |e.parseError.value.contextBefore| <= 2 && |e.parseError.value.contextAfter| <= 2
      && (idx < |lines| ==>
        && |e.parseError.value.contextBefore| == Min(idx, 2)
        && |e.parseError.value.contextAfter| == Min(|lines| - idx - 1, 2)
        && (forall t :: 0 <= t < |e.parseError.value.contextBefore| ==>
              e.parseError.value.contextBefore[t] == lines[idx - |e.parseError.value.contextBefore| + t])
        && (forall t :: 0 <= t < |e.parseError.value.contextAfter| ==>
              e.parseError.value.contextAfter[t] == lines[idx + 1 + t]))
  {
  }

  // ---------------------------------------------------------------------------
  // one block
  // ---------------------------------------------------------------------------

  /**
   * What is wrong with a block's lines, as the index of the line blamed and
   * the message, or the question they hold.
   */
  datatype BlockCheck = Problem(index: nat, message: string) | Fine(question: Question)

  /** The question text of a block: its lines before the first answer line, joined and stripped. */
  function QuestionTextOf(lines: seq<string>): string {
    Strip(Join(lines[..FirstAnswerFrom(lines, 0)], "\n"))
  }

  /** Where the answer loop starts: the first answer line, or line 0 when there is none. */
  function AnswerStart(lines: seq<string>): (k: nat)
    ensures |lines| > 0 ==> k < |lines|
  {
    var k := FirstAnswerFrom(lines, 0);
    if k < |lines| then k else 0
  }

  /** The answer loop of a block, from its first answer line. */
  function AnswersOf(lines: seq<string>): Scan {
    ScanAnswers(lines, AnswerStart(lines), None)
  }

  /** The checks of `_parse_question_block` on the lines of one block, in the order it makes them. */
  function CheckBlock(lines: seq<string>): (c: BlockCheck)
    ensures c.Problem? && |lines| > 0 ==> c.index < |lines|
  {
    var answerStart := AnswerStart(lines);
    var questionText := QuestionTextOf(lines);
    if questionText == "" then Problem(0, NoQuestionTextMessage)
    else
      match AnswersOf(lines)
      case MixedAt(j) => Problem(j, MixedTypesMessage)
      case Scanned(answers, shape, rs) =>
        if answers == [] then Problem(answerStart, NoAnswersMessage)
        else
          var j := FirstAnswerFrom(lines, answerStart);
          if !AnyCorrect(answers) && j < |lines| then Problem(j, NoCorrectMessage)
          else Fine(Question(questionText, answers, ReasonText(lines, rs), TypeName(shape)))
  }

  /** A block passes every check when it has question text and answers of one shape, one of them correct or none findable. */
  lemma CheckBlockFine(lines: seq<string>, s: Scan)
    requires QuestionTextOf(lines) != ""
    requires s == AnswersOf(lines)
    requires s.Scanned? && s.answers != []
    requires AnyCorrect(s.answers) || FirstAnswerFrom(lines, AnswerStart(lines)) == |lines|
    ensures CheckBlock(lines)
         == Fine(Question(QuestionTextOf(lines), s.answers, ReasonText(lines, s.reasonStart), TypeName(s.shape)))
  {
  }

  /** Line `i` of a block, or the empty line when there is none. */
  function LineAt(lines: seq<string>, i: nat): string {
    if i < |lines| then lines[i] else ""
  }

  /**
   * Parsing the stripped block numbered `blockNumber` whose first line is
   * file line `lineOffset + 1`: a question, or the error for the first
   * problem found.
   */
  function ParseBlock(block: string, blockNumber: nat, lineOffset: nat): (r: Result<Question, QuizParseError>)
    ensures r.Failure? ==>
      && r.error.parseError.Some?
      && r.error.parseError.value.blockNumber == blockNumber
      && lineOffset < r.error.parseError.value.lineNumber <= lineOffset + |Split(block, "\n")|
    ensures r.Success? ==> r.value.text != "" && r.value.answers != []
  {
    var lines := Split(block, "\n");
    match CheckBlock(lines)
    case Problem(i, message) => Failure(ErrorAt(lineOffset, i, LineAt(lines, i), message, blockNumber, lines))
    case Fine(q) => Success(q)
  }

  // ---------------------------------------------------------------------------
  // the whole file
  // ---------------------------------------------------------------------------

  /** The questions parsed from the blocks so far, the error that stopped the loop (if any), and the last block's line offset. */
  datatype BlocksOutcome = BlocksOutcome(parsed: seq<Question>, failure: Option<QuizParseError>, lineOffset: nat)

  /** The lines a piece is counted for: its line feeds plus one, plus one for the separator after it. */
  function PieceLineCount(pieces: seq<string>, i: nat): nat
    requires i < |pieces|
  {
    CountChar(pieces[i], '\n') + 1 + (if i < |pieces| - 1 then 1 else 0)
  }

  /** The block loop of `parse` from piece `i` on, at counted line `currentLine`. */
  function ParseBlocks(pieces: seq<string>, i: nat, currentLine: nat, lineOffset: nat): (o: BlocksOutcome)
    requires i <= |pieces|
    decreases |pieces| - i, 1
  {
    if i == |pieces| then BlocksOutcome([], None, lineOffset)
    else ParsePiece(pieces, i, currentLine)
  }

  /** One turn of the block loop, on piece `i` at counted line `currentLine`, and the turns after it. */
  function ParsePiece(pieces: seq<string>, i: nat, currentLine: nat): (o: BlocksOutcome)
    requires i < |pieces|
    decreases |pieces| - i, 0
  {
    var next := currentLine + PieceLineCount(pieces, i);
    var block := Strip(pieces[i]);
    if block == "" then ParseBlocks(pieces, i + 1, next, currentLine)
    else match ParseBlock(block, i + 1, currentLine)
      case Failure(e) => BlocksOutcome([], Some(e), currentLine)
      case Success(q) => Combine([q], ParseBlocks(pieces, i + 1, next, currentLine))
  }

  /** The block loop after piece `i`, which started at counted line `currentLine`. */
  function AfterPiece(pieces: seq<string>, i: nat, currentLine: nat): BlocksOutcome
    requires i < |pieces|
  {
    ParseBlocks(pieces, i + 1, currentLine + PieceLineCount(pieces, i), currentLine)
  }

  /** The block loop over the whole file content, by a parser whose line offset was `lineOffset`. */
  function BlocksOf(content: string, lineOffset: nat): BlocksOutcome {
    ParseBlocks(Split(content, QuestionSeparator), 0, 0, lineOffset)
  }

  /** Every error the block loop stops with locates its line, unlike the "no questions" error. */
  lemma {:induction false} BlocksFailuresLocated(pieces: seq<string>, i: nat, currentLine: nat, lineOffset: nat)
    requires i <= |pieces|
    ensures var o := ParseBlocks(pieces, i, currentLine, lineOffset);
      o.failure.Some? ==> o.failure.value.parseError.Some?
    decreases |pieces| - i
  {
    if i < |pieces| {
      BlocksFailuresLocated(pieces, i + 1, currentLine + PieceLineCount(pieces, i), currentLine);
    }
  }

  /** `parse` on a file with this content, by a parser already holding `held`. */
  function ParseContent(content: string, held: seq<Question>): (r: ParseOutcome)
    ensures !r.FileNotFound?
    ensures r.Parsed? ==> r.questions != [] && |held| <= |r.questions| && r.questions[..|held|] == held
    ensures r.ParseFailed? ==> (r.error.parseError.None? <==> r.error == QuizParseError(NoQuestionsMessage, None))
    ensures r.ParseFailed? && r.error.parseError.None? ==> held == []
  {
    BlocksFailuresLocated(Split(content, QuestionSeparator), 0, 0, 0);
    var o := BlocksOf(content, 0);
    if o.failure.Some? then ParseFailed(o.failure.value)
    else if held + o.parsed == [] then ParseFailed(QuizParseError(NoQuestionsMessage, None))
    else Parsed(held + o.parsed)
  }

  /** `parse_quiz_file`: a fresh parser on the file; `fileContent` is `None` when no file is at the path. */
  function ParseFile(filePath: string, fileContent: Option<string>): (r: ParseOutcome)
    ensures r.FileNotFound? <==> fileContent.None?
    ensures r.FileNotFound? ==> r.message == FileNotFoundPrefix + filePath
    ensures r.Parsed? ==> r.questions != []
  {
    match fileContent
    case None => FileNotFound(FileNotFoundPrefix + filePath)
    case Some(content) => ParseContent(content, [])
  }

  /** Appends the questions of earlier blocks to an outcome of the later ones. */
  function Combine(prefix: seq<Question>, o: BlocksOutcome): BlocksOutcome {
    BlocksOutcome(prefix + o.parsed, o.failure, o.lineOffset)
  }

  /** A blank piece adds nothing and moves the counted line on. */
  lemma BlankPieceSkipped(pieces: seq<string>, i: nat, currentLine: nat, lineOffset: nat)
    requires i < |pieces| && Strip(pieces[i]) == ""
    ensures ParseBlocks(pieces, i, currentLine, lineOffset) == AfterPiece(pieces, i, currentLine)
  {
  }

  /** A piece whose block fails stops the loop with that error. */
  lemma FailingPieceStops(pieces: seq<string>, i: nat, currentLine: nat, lineOffset: nat, e: QuizParseError)
    requires i < |pieces| && Strip(pieces[i]) != ""
    requires ParseBlock(Strip(pieces[i]), i + 1, currentLine) == Failure(e)
    ensures ParseBlocks(pieces, i, currentLine, lineOffset) == BlocksOutcome([], Some(e), currentLine)
  {
  }

  /** A piece whose block parses puts its question in front of the later ones. */
  lemma ParsedPieceKept(pieces: seq<string>, i: nat, currentLine: nat, lineOffset: nat, q: Question)
    requires i < |pieces| && Strip(pieces[i]) != ""
    requires ParseBlock(Strip(pieces[i]), i + 1, currentLine) == Success(q)
    ensures ParseBlocks(pieces, i, currentLine, lineOffset) == Combine([q], AfterPiece(pieces, i, currentLine))
  {
  }

  /** The block loop's outcome when it resumes at piece `i` having parsed `parsed` from the earlier pieces. */
  ghost function ResumeBlocks(parsed: seq<Question>, pieces: seq<string>, i: nat, currentLine: nat, lineOffset: nat): BlocksOutcome
    requires i <= |pieces|
  {
    Combine(parsed, ParseBlocks(pieces, i, currentLine, lineOffset))
  }

  lemma CombineTwice(a: seq<Question>, b: seq<Question>, o: BlocksOutcome)
    ensures Combine(a, Combine(b, o)) == Combine(a + b, o)
  {
    assert a + (b + o.parsed) == (a + b) + o.parsed;
  }

  // ---------------------------------------------------------------------------
  // the parser object
  // ---------------------------------------------------------------------------

  /**
   * A parser bound to one file.  `fileContent` is the file's text, `None`
   * when nothing exists at `filePath`.  `questions` gathers every question
   * parsed so far, `allLines` holds the file's lines, and `lineOffset` is
   * the counted line at which the current block starts.
   */
  class QuizParser {
    const filePath: string
    const fileContent: Option<string>
    var questions: seq<Question>
    var allLines: seq<string>
    var lineOffset: nat

    constructor (filePath: string, fileContent: Option<string>)
      ensures this.filePath == filePath && this.fileContent == fileContent
      ensures questions == [] && allLines == [] && lineOffset == 0
    {
      this.filePath := filePath;
      this.fileContent := fileContent;
      questions := [];
      allLines := [];
      lineOffset := 0;
    }

    /**
     * Parses the file.  The questions of every block are appended to
     * `questions`; the result is that whole list, or the first block error,
     * or the "no questions" error when the list is still empty.
     */
    method Parse() returns (r: ParseOutcome)
      modifies this
      ensures fileContent.None? ==>
        r == FileNotFound(FileNotFoundPrefix + filePath) && questions == old(questions)
        && allLines == old(allLines) && lineOffset == old(lineOffset)
      ensures fileContent.Some? ==>
        var o := BlocksOf(fileContent.value, old(lineOffset));
        && allLines == Split(fileContent.value, "\n")
        && questions == old(questions) + o.parsed
        && lineOffset == o.lineOffset
        && r == (if o.failure.Some? then ParseFailed(o.failure.value)
                 else if questions == [] then ParseFailed(QuizParseError(NoQuestionsMessage, None))
                 else Parsed(questions))
    {
      if fileContent.None? {
        return FileNotFound(FileNotFoundPrefix + filePath);
      }
      var content := fileContent.value;
      allLines := Split(content, "\n");
      var blocks := Split(content, QuestionSeparator);
      ghost var whole := BlocksOf(content, old(lineOffset));
      ghost var parsed: seq<Question> := [];
      var currentLine: nat := 0;
      var i := 0;
      while i < |blocks|
        invariant 0 <= i <= |blocks|
        invariant whole == ResumeBlocks(parsed, blocks, i, currentLine, lineOffset)
        invariant questions == old(questions) + parsed
        invariant allLines == Split(content, "\n")
      {
        var blockLineCount, failure, added := ParseBlockAt(blocks, i, currentLine, parsed);
        if failure.Some? {
          return ParseFailed(failure.value);
        }
        assert old(questions) + parsed + added == old(questions) + (parsed + added);
        parsed := parsed + added;
        currentLine := currentLine + blockLineCount;
        i := i + 1;
      }
      assert parsed + [] == parsed;
      if questions == [] {
        return ParseFailed(QuizParseError(NoQuestionsMessage, None));
      }
      return Parsed(questions);
    }

    /**
     * One turn of the block loop, on piece `i` starting at counted line
     * `currentLine`, which it stores in `lineOffset`: it counts the piece's
     * lines, skips it when blank, and otherwise parses it and keeps its
     * question, or stops with the block's error.
     */
    method ParseBlockAt(blocks: seq<string>, i: nat, currentLine: nat, ghost parsed: seq<Question>)
      returns (blockLineCount: nat, failure: Option<QuizParseError>, ghost added: seq<Question>)
      modifies this
      requires i < |blocks|
      ensures blockLineCount == PieceLineCount(blocks, i)
      ensures lineOffset == currentLine && allLines == old(allLines)
      ensures questions == old(questions) + added
      ensures failure.Some? ==>
        added == [] && ResumeBlocks(parsed, blocks, i, currentLine, old(lineOffset)) == BlocksOutcome(parsed, failure, currentLine)
      ensures failure.None? ==>
        ResumeBlocks(parsed, blocks, i, currentLine, old(lineOffset))
        == ResumeBlocks(parsed + added, blocks, i + 1, currentLine + blockLineCount, currentLine)
    {
      ghost var previousOffset := lineOffset;
      lineOffset := currentLine;
      blockLineCount := CountChar(blocks[i], '\n') + 1;
      if i < |blocks| - 1 {
        blockLineCount := blockLineCount + 1;
      }
      var block := Strip(blocks[i]);
      if block == "" {
        BlankPieceSkipped(blocks, i, currentLine, previousOffset);
        assert parsed + [] == parsed;
        return blockLineCount, None, [];
      }
      var q := ParseQuestionBlock(block, i + 1);
      if q.Failure? {
        FailingPieceStops(blocks, i, currentLine, previousOffset, q.error);
        assert parsed + [] == parsed;
        return blockLineCount, Some(q.error), [];
      }
      ParsedPieceKept(blocks, i, currentLine, previousOffset, q.value);
      CombineTwice(parsed, [q.value], AfterPiece(blocks, i, currentLine));
      questions := questions + [q.value];
      return blockLineCount, None, [q.value];
    }

    /**
     * Parses one stripped block, numbered `blockNumber`, starting at counted
     * line `lineOffset + 1`: the first failed check raises its error for the
     * line it blames.
     */
    method ParseQuestionBlock(block: string, blockNumber: nat) returns (r: Result<Question, QuizParseError>)
      ensures r == ParseBlock(block, blockNumber, lineOffset)
    {
      var lines := Split(block, "\n");
      var check := CheckQuestionBlock(lines);
      match check
      case Problem(lineIdx, message) =>
        var err := RaiseParseError(lineIdx, LineAt(lines, lineIdx), message, blockNumber, lines);
        return Failure(err);
      case Fine(question) =>
        return Success(question);
    }

    /** The error for line `lineIdx` of the current block, with its context lines. */
    method RaiseParseError(lineIdx: nat, lineContent: string, errorMessage: string,
                           blockNumber: nat, blockLines: seq<string>) returns (e: QuizParseError)
      ensures e == ErrorAt(lineOffset, lineIdx, lineContent, errorMessage, blockNumber, blockLines)
    {
      var absoluteLine := lineOffset + lineIdx + 1;
      var contextBefore: seq<string> := [];
      var contextAfter: seq<string> := [];

      var lo := if lineIdx >= 2 then lineIdx - 2 else 0;
      var i := lo;
      while i < lineIdx
        invariant lo <= i <= lineIdx
        invariant contextBefore == blockLines[Min(lo, |blockLines|)..Min(i, |blockLines|)]
      {
        if i < |blockLines| {
          contextBefore := contextBefore + [blockLines[i]];
        }
        i := i + 1;
      }

      var hi := Min(|blockLines|, lineIdx + 3);
      i := lineIdx + 1;
      while i < hi
        invariant lineIdx + 1 <= i
        invariant lineIdx + 1 <= hi ==> i <= hi
        invariant i <= hi ==> contextAfter == blockLines[lineIdx + 1..i]
        invariant i > hi ==> contextAfter == []
      {
        contextAfter := contextAfter + [blockLines[i]];
        i := i + 1;
      }

      var parseError := ParseError(absoluteLine, lineContent, errorMessage, blockNumber, contextBefore, contextAfter);
      e := QuizParseError("Error at line " + NatToString(absoluteLine) + ": " + errorMessage, Some(parseError));
    }
  }

  /**
   * The checks of `_parse_question_block` on the lines of a block, in order:
   * question text, answers of one marker shape, at least one answer, and a
   * correct one among them; on success, the question with its reason and type.
   */
  method CheckQuestionBlock(lines: seq<string>) returns (c: BlockCheck)
    ensures c == CheckBlock(lines)
  {
    // question text: everything before the first answer line
    var firstAnswer, questionTextLines := QuestionTextLines(lines);
    var answerStart := if firstAnswer < |lines| then firstAnswer else 0;
    var questionText := Strip(Join(questionTextLines, "\n"));
    assert questionText == QuestionTextOf(lines) && answerStart == AnswerStart(lines);
    if questionText == "" {
      return Problem(0, NoQuestionTextMessage);
    }

    // answers, each with its continuation lines
    var scan := ScanAnswerLines(lines, answerStart);
    if scan.MixedAt? {
      return Problem(scan.index, MixedTypesMessage);
    }
    var answers := scan.answers;
    if answers == [] {
      return Problem(answerStart, NoAnswersMessage);
    }
    if !AnyCorrect(answers) {
      var j := FindAnswerLine(lines, answerStart);
      if j < |lines| {
        return Problem(j, NoCorrectMessage);
      }
    }

    // the reason: every line after the marker
    var reasonLines := LinesAfter(lines, scan.reasonStart);
    var reason := Strip(Join(reasonLines, "\n"));
    var typeName := if scan.shape.Some? then ShapeName(scan.shape.value) else "single";
    CheckBlockFine(lines, scan);
    return Fine(Question(questionText, answers, reason, typeName));
  }

  /** The lines before the first answer line, and that line's index (`|lines|` when there is none). */
  method QuestionTextLines(lines: seq<string>) returns (k: nat, textLines: seq<string>)
    ensures k == FirstAnswerFrom(lines, 0)
    ensures textLines == lines[..k]
  {
    textLines := [];
    k := 0;
    while k < |lines| && !IsAnswerLine(lines[k])
      invariant 0 <= k <= |lines|
      invariant textLines == lines[..k]
      invariant forall j {:trigger IsAnswerLine(lines[j])} :: 0 <= j < k ==> !IsAnswerLine(lines[j])
    {
      textLines := textLines + [lines[k]];
      k := k + 1;
    }
    assert k < |lines| ==> IsAnswerLine(lines[k]);
  }

  /** The first answer line at or after `from`, `|lines|` when there is none. */
  method FindAnswerLine(lines: seq<string>, from: nat) returns (j: nat)
    requires from <= |lines|
    ensures j == FirstAnswerFrom(lines, from)
  {
    j := from;
    while j < |lines| && !IsAnswerLine(lines[j])
      invariant from <= j <= |lines|
      invariant forall t {:trigger IsAnswerLine(lines[t])} :: from <= t < j ==> !IsAnswerLine(lines[t])
    {
      j := j + 1;
    }
    assert j < |lines| ==> IsAnswerLine(lines[j]);
  }

  /** The lines after the reason marker at `reasonStart` (none when the marker is absent). */
  method LinesAfter(lines: seq<string>, reasonStart: nat) returns (reasonLines: seq<string>)
    requires reasonStart <= |lines|
    ensures reasonLines == ReasonLines(lines, reasonStart)
  {
    reasonLines := [];
    var first := if reasonStart < |lines| then reasonStart + 1 else |lines|;
    var j := first;
    while j < |lines|
      invariant first <= j <= |lines|
      invariant reasonLines == lines[first..j]
    {
      reasonLines := reasonLines + [lines[j]];
      j := j + 1;
    }
    assert lines[first..j] == lines[first..];
  }

  /** The answer loop's outcome when it resumes at line `i` having gathered `answers` from the earlier lines. */
  ghost function ResumeScan(answers: seq<Answer>, lines: seq<string>, i: nat, shape: Option<Shape>): Scan
    requires i <= |lines|
  {
    PrependAll(answers, ScanAnswers(lines, i, shape))
  }

  /**
   * The answer loop of `_parse_question_block` from line `answerStart`: it
   * stops at the reason marker, skips lines that are not answers, and
   * gathers each answer with its continuation lines; a marker shape that
   * differs from the first one ends it at that line.
   */
  method ScanAnswerLines(lines: seq<string>, answerStart: nat) returns (s: Scan)
    requires answerStart == AnswerStart(lines)
    ensures s == AnswersOf(lines)
  {
    ghost var full := AnswersOf(lines);
    var answers: seq<Answer> := [];
    var questionType: Option<Shape> := None;
    var i := answerStart;
    while i < |lines|
      invariant answerStart <= i <= |lines|
      invariant full == ResumeScan(answers, lines, i, questionType)
    {
      var line := lines[i];
      if IsReasonMarker(line) {
        ScanStopsAtReason(lines, i, questionType);
        assert answers + [] == answers;
        return Scanned(answers, questionType, i);
      }
      var m := MatchShape(line, Paren);
      var answerType := Paren;
      if m.None? {
        m := MatchShape(line, Bracket);
        answerType := Bracket;
      }
      if m.None? {
        ScanSkipsLine(lines, i, questionType);
        i := i + 1;
        continue;
      }
      assert MatchAnswer(line) == m;
      if questionType.Some? && questionType.value != answerType {
        ScanStopsAtMixed(lines, i, questionType);
        return MixedAt(i);
      }
      ghost var shapeBefore := questionType;
      questionType := Some(answerType);
      var end, answer := ReadAnswer(lines, i, m.value);
      ResumeTakesAnswer(answers, lines, i, shapeBefore, end);
      answers := answers + [answer];
      i := end;
    }
    assert answers + [] == answers;
    return Scanned(answers, questionType, |lines|);
  }

  /** The answer whose marker `m` is on line `i`: its text with the continuation lines, and the line after them. */
  method ReadAnswer(lines: seq<string>, i: nat, m: Marker) returns (end: nat, answer: Answer)
    requires i < |lines| && MatchAnswer(lines[i]) == Some(m)
    ensures end == ContinuationEnd(lines, i + 1)
    ensures i < end <= |lines| && answer == AnswerFor(lines, i, end)
  {
    var isCorrect := IsCorrectFlag(m.flag);
    var firstLineText := m.rest;
    var continuation;
    end, continuation := CollectContinuation(lines, i + 1);
    var answerLines := (if firstLineText != "" then [firstLineText] else []) + continuation;
    answer := Answer(Strip(Join(answerLines, "\n")), isCorrect);
  }

  /** Taking the answer at line `i` moves it from the rest of the scan to the answers gathered so far. */
  lemma ResumeTakesAnswer(answers: seq<Answer>, lines: seq<string>, i: nat, shape: Option<Shape>, end: nat)
    requires i < |lines| && !IsReasonMarker(lines[i]) && IsAnswerLine(lines[i])
    requires shape.None? || shape.value == MatchAnswer(lines[i]).value.shape
    requires end == ContinuationEnd(lines, i + 1)
    ensures i < end <= |lines|
    ensures ResumeScan(answers, lines, i, shape)
      == ResumeScan(answers + [AnswerFor(lines, i, end)], lines, end, Some(MatchAnswer(lines[i]).value.shape))
  {
    ScanTakesAnswer(lines, i, shape);
    PrependAllTwice(answers, [AnswerFor(lines, i, end)], ScanAnswers(lines, end, Some(MatchAnswer(lines[i]).value.shape)));
  }

  lemma PrependAllTwice(a: seq<Answer>, b: seq<Answer>, s: Scan)
    ensures PrependAll(a, PrependAll(b, s)) == PrependAll(a + b, s)
  {
    if s.Scanned? {
      assert a + (b + s.answers) == (a + b) + s.answers;
    }
  }

  /** The continuation lines of an answer: from `start` up to the next answer line or reason marker. */
  method CollectContinuation(lines: seq<string>, start: nat) returns (end: nat, continuation: seq<string>)
    requires start <= |lines|
    ensures end == ContinuationEnd(lines, start)
    ensures continuation == lines[start..end]
  {
    continuation := [];
    end := start;
    while end < |lines|
      invariant start <= end <= |lines|
      invariant continuation == lines[start..end]
      invariant forall j {:trigger EndsAnswer(lines[j])} :: start <= j < end ==> !EndsAnswer(lines[j])
    {
      var nextLine := lines[end];
      if IsAnswerLine(nextLine) {
        break;
      }
      if IsReasonMarker(nextLine) {
        break;
      }
      continuation := continuation + [nextLine];
      end := end + 1;
    }
    assert end < |lines| ==> EndsAnswer(lines[end]);
  }

  /** `parse_quiz_file`: parses the file at `filePath` with a fresh parser. */
  method ParseQuizFile(filePath: string, fileContent: Option<string>) returns (r: ParseOutcome)
    ensures r == ParseFile(filePath, fileContent)
  {
    var parser := new QuizParser(filePath, fileContent);
    r := parser.Parse();
  }
}
