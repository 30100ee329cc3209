# Markdown quiz exporter, modelled in Dafny

This project models the core of `markdown-quiz-exporter-tool`. The tool reads a
quiz written in markdown and exports it to three flashcard or quiz formats.

A quiz file is a sequence of blocks separated by `---`. Each block has:

- the question text;
- answer lines written `- (X) text` (single choice) or `- [X] text`
  (multiple choice), where `X`/`x` marks a correct answer and a space an
  incorrect one;
- answer texts that may continue on the following lines;
- an optional `# reason` section.

The parser turns the file into a list of questions. When it cannot, it fails
with an error that names the file line, the block and up to two lines of
context on each side. The exporters turn questions into:

- Anki rows: the "AllInOne" note type and the "Basic" recall note type;
- Flashcard Hero tab-separated lines;
- the data records of a standalone HTML quiz, with its category prefixes and
  its escaped title.

Modules:

- `Wrappers` (`wrappers.dfy`): `Option` and `Result`.
- `Text` (`text.dfy`): the Python string operations the code relies on.
  - `strip` becomes `Strip`, `split(sep)` becomes `Split` and `sep.join`
    becomes `Join`.
  - `" ".join(s.split())` becomes `CollapseSpaces`, built on `Words`.
  - `lower` becomes `Lower`, `replace` of one character becomes
    `ReplaceChar`, and a decimal rendering of line numbers becomes
    `NatToString`.
  - Whitespace is the ASCII set: space, `\t`, `\n`, `\r`, `\v`, `\f`.
- `QuizParser` (`quiz_parser.dfy`): the records, the two answer-line
  patterns as hand-written matchers, and the checks of one block.
  - The block checks are specification functions that follow the source's
    loops (`ScanAnswers`, `CheckBlock`, `ParseBlock`, `ParseBlocks`).
  - The class `QuizParser` holds the fields the source updates in place
    (`questions`, `allLines`, `lineOffset`). Its `Parse` method runs the
    block loop.
  - The loops of `_parse_question_block` are methods proved against the
    specification functions.
- `QuizParserFacts` (`quiz_parser_facts.dfy`): declarative descriptions of
  what the parser computes, and proofs that the loop-shaped functions meet
  them.
  - A block's answers are the answer lines before the reason marker, each
    with its maximal continuation.
  - Which of the four errors a block raises, and at which line.
  - Every parsed question is well-formed, and there is one question per
    non-blank piece.
- `Anki` (`anki.dfy`), `FlashcardHero` (`flashcard_hero.dfy`) and `QuizHtml`
  (`quiz_html.dfy`): the field builders of the three exporters. The exports
  of `Anki` and `FlashcardHero` are methods that loop over the questions as
  the source does; `QuizHtml` builds its quiz data with functions, as
  `quiz_html.py` does.

The records of `quiz_parser.py:15-56` are datatypes of `QuizParser`:
`Answer` (text, correctness), `Question` (text, answers, reason, type),
`ParseError` (line number, line content, message, block number, context
before and after) and `QuizParseError` (message, optional details). The
outcome of `parse` is `ParseOutcome`: the questions, the parse error, or the
missing-file message. What the records hold is stated by the functions that
build them (`ErrorAt`, `CheckBlock`, `ParseBlock`).

Reading the file is replaced by a parameter `fileContent: Option<string>`.
`None` stands for a path that does not exist.

## Model

| member | source | states |
|---|---|---|
| Text.StripEmpty | markdown_quiz_exporter_tool/quiz_parser.py:108-109 | a stripped piece is empty exactly when every character of it is whitespace |
| Text.StripOfStripped | markdown_quiz_exporter_tool/anki.py:176 | stripping text with no outer whitespace leaves it unchanged |
| Text.SplitJoin | markdown_quiz_exporter_tool/quiz_parser.py:96 | joining the pieces of `split(sep)` with `sep` gives the text back, and no piece contains `sep` |
| Text.SplitLinesNoNewline | markdown_quiz_exporter_tool/quiz_parser.py:142 | no line produced by `split("\n")` contains a line feed |
| Text.SplitOfJoin | markdown_quiz_exporter_tool/flashcard_hero.py:46-50 | splitting pieces joined by a one-character separator they do not contain gives the pieces back |
| Text.FindFrom | markdown_quiz_exporter_tool/quiz_html.py:200 | the result is the first occurrence of the separator at or after the start, and `None` only when there is none |
| Text.CollapseIsSingleSpaced | markdown_quiz_exporter_tool/anki.py:175 | `" ".join(s.split())` has no outer whitespace, only single spaces between words, and no other whitespace |
| Text.CollapseKeepsWords | markdown_quiz_exporter_tool/anki.py:175 | collapsing keeps the words of the text, in order |
| Text.WordsKeepCharacters | markdown_quiz_exporter_tool/anki.py:175 | the words of a text, concatenated, are exactly its non-whitespace characters |
| Text.CollapseIdempotent | markdown_quiz_exporter_tool/anki.py:175 | collapsing twice is collapsing once |
| Text.CollapseEmpty | markdown_quiz_exporter_tool/anki.py:175-176 | collapsing gives "" exactly when the stripped text is "" |
| Text.LowerEqualsIsLower | markdown_quiz_exporter_tool/quiz_parser.py:173 | comparing character by character, after lower-casing the line, is the same as comparing the whole lower-cased line |
| Text.ReplaceChar | markdown_quiz_exporter_tool/flashcard_hero.py:71 | each position of the result holds the replacement where the text held the replaced character, and the original character elsewhere |
| Text.ReplaceAbsent | markdown_quiz_exporter_tool/flashcard_hero.py:118 | replacing a character that does not occur changes nothing |
| Text.NatToStringRoundTrip | markdown_quiz_exporter_tool/quiz_parser.py:316 | the decimal rendering of a line number reads back as that number |
| QuizParser.MatchShape | markdown_quiz_exporter_tool/quiz_parser.py:63-64 | a match carries the pattern's shape and a flag in `X`, `x`, space, on a line that starts with `-` and has at least five characters |
| QuizParser.MatchAnswer | markdown_quiz_exporter_tool/quiz_parser.py:178-182 | the single-choice pattern is tried first, then the multiple-choice one; a match carries a valid flag |
| QuizParserFacts.MarkerAtMatches | markdown_quiz_exporter_tool/quiz_parser.py:63-64 | after the dash and its whitespace, the rest of a pattern matches exactly when a `(f)` or `[f]` marker follows after optional whitespace; the match then holds that marker's flag and the text after it with its leading whitespace dropped |
| QuizParserFacts.AnswerLineForm | markdown_quiz_exporter_tool/quiz_parser.py:260-271 | a line is an answer line exactly when it is a dash, a whitespace character, optional further whitespace and a `(f)` or `[f]` marker whose flag is a space, `X` or `x` |
| QuizParser.ReasonMarkerIsLowerCase | markdown_quiz_exporter_tool/quiz_parser.py:66 | the reason marker is already lower case, so comparing with its lower-cased form is comparing with it |
| QuizParser.FirstAnswerFrom | markdown_quiz_exporter_tool/quiz_parser.py:149-153 | the result is the first answer line at or after the start, or the number of lines when there is none |
| QuizParser.ContinuationEnd | markdown_quiz_exporter_tool/quiz_parser.py:205-213 | the result is the first line at or after the start that is an answer line or the reason marker, or the number of lines |
| QuizParser.ScanAnswers | markdown_quiz_exporter_tool/quiz_parser.py:168-220 | a mixed-shape stop is at an answer line inside the scanned range; the reason start lies in that range or is the number of lines |
| QuizParser.ReasonText | markdown_quiz_exporter_tool/quiz_parser.py:247-251 | the reason has no outer whitespace, and it is "" when there is no reason marker |
| QuizParser.ErrorAt | markdown_quiz_exporter_tool/quiz_parser.py:294 | the reported line number is the line offset plus the in-block index plus one |
| QuizParser.ErrorAtDescribes | markdown_quiz_exporter_tool/quiz_parser.py:294-316 | the message reads "Error at line N: msg"; line, message and block are recorded; each context list has at most two lines; for an index inside the block they are exactly the lines just before and just after it |
| QuizParser.AnswerStart | markdown_quiz_exporter_tool/quiz_parser.py:147-152 | the answer loop starts at a line of the block whenever the block has lines |
| QuizParser.CheckBlock | markdown_quiz_exporter_tool/quiz_parser.py:142-258 | a reported problem is always at a line of the block |
| QuizParser.ParseBlock | markdown_quiz_exporter_tool/quiz_parser.py:129-258 | a failing block raises an error with details that record its block number and a line number between the block's first and last line, counted from the offset; a parsed question has non-empty text and at least one answer |
| QuizParser.BlocksFailuresLocated | markdown_quiz_exporter_tool/quiz_parser.py:113-117 | every error that stops the block loop carries line details |
| QuizParser.ParseContent | markdown_quiz_exporter_tool/quiz_parser.py:96-127 | parsing content never reports a missing file; a result holds at least one question and starts with the questions already held; a failure lacks line details exactly when it is "No questions found in the quiz file", and that failure happens only to a parser that held no questions |
| QuizParser.ParseFile | markdown_quiz_exporter_tool/quiz_parser.py:319-333 | the result is "file not found" exactly when there is no file, with the message "Quiz file not found: " and the path; a parsed result is never empty |
| QuizParser.QuizParser.constructor | markdown_quiz_exporter_tool/quiz_parser.py:68-77 | a new parser holds the path, no questions, no lines and a zero line offset |
| QuizParser.QuizParser.Parse | markdown_quiz_exporter_tool/quiz_parser.py:79-127 | a missing file gives "Quiz file not found: path" and changes nothing; otherwise `allLines` holds the file's lines, the parsed questions are appended to `questions`, `lineOffset` is the last block's offset, and the result is the first block error, else "No questions found in the quiz file" with no details when no question is held, else all the questions |
| QuizParser.QuizParser.ParseBlockAt | markdown_quiz_exporter_tool/quiz_parser.py:99-122 | one turn of the block loop counts the piece's lines (its line feeds plus one, plus one for a separator), stores the offset, and skips, fails on or appends the piece as the block functions say |
| QuizParser.QuizParser.ParseQuestionBlock | markdown_quiz_exporter_tool/quiz_parser.py:129-258 | the block's loops compute exactly the question or error of `ParseBlock` |
| QuizParser.QuizParser.RaiseParseError | markdown_quiz_exporter_tool/quiz_parser.py:273-316 | the range loops build exactly the error `ErrorAt` describes |
| QuizParser.CheckQuestionBlock | markdown_quiz_exporter_tool/quiz_parser.py:142-244 | the checks, in the source's order, give exactly `CheckBlock` |
| QuizParser.QuestionTextLines | markdown_quiz_exporter_tool/quiz_parser.py:146-153 | the question-text lines are the lines before the first answer line |
| QuizParser.FindAnswerLine | markdown_quiz_exporter_tool/quiz_parser.py:235-236 | the search returns the first answer line from the given index |
| QuizParser.LinesAfter | markdown_quiz_exporter_tool/quiz_parser.py:247-249 | the reason lines are the lines after the reason marker |
| QuizParser.ScanAnswerLines | markdown_quiz_exporter_tool/quiz_parser.py:164-220 | the answer loop with its inner continuation loop computes exactly `AnswersOf` |
| QuizParser.ReadAnswer | markdown_quiz_exporter_tool/quiz_parser.py:196-217 | the answer read at a marker line is `AnswerFor` that line and its continuation, which ends at `ContinuationEnd` |
| QuizParser.CollectContinuation | markdown_quiz_exporter_tool/quiz_parser.py:204-213 | the inner loop stops at `ContinuationEnd` and collects the lines in between |
| QuizParser.ParseQuizFile | markdown_quiz_exporter_tool/quiz_parser.py:319-333 | a fresh parser's result is `ParseFile` |
| QuizParserFacts.WrittenAnswerMatches | markdown_quiz_exporter_tool/quiz_parser.py:63-64 | a line written `- (f) text` or `- [f] text` matches its own pattern with that flag and text, does not match the other pattern, and is an answer line |
| QuizParserFacts.ReasonFrom | markdown_quiz_exporter_tool/quiz_parser.py:172-175 | the result is the first reason-marker line at or after the start, or the number of lines |
| QuizParserFacts.AnswerIndicesComplete | markdown_quiz_exporter_tool/quiz_parser.py:168-184 | every answer line between the first answer and the reason marker is listed |
| QuizParserFacts.AnswerLineIsNotReason | markdown_quiz_exporter_tool/quiz_parser.py:173-184 | an answer line is never the reason marker |
| QuizParserFacts.ListedAnswers | markdown_quiz_exporter_tool/quiz_parser.py:216-217 | one answer per listed line, each with stripped text |
| QuizParserFacts.ListedAnswerAt | markdown_quiz_exporter_tool/quiz_parser.py:197-217 | answer t is built from listed line t and the lines up to the next listed line or the reason marker |
| QuizParserFacts.FirstOtherShape | markdown_quiz_exporter_tool/quiz_parser.py:186-195 | the result is the first listed answer whose shape differs from the first one's; all earlier ones share it |
| QuizParserFacts.ScanIsReference | markdown_quiz_exporter_tool/quiz_parser.py:168-220 | the answer loop equals the declarative scan over the listed answer lines |
| QuizParserFacts.ContinuationStopsAtNext | markdown_quiz_exporter_tool/quiz_parser.py:204-213 | an answer's continuation ends where the next listed answer starts, or at the reason marker when none is left |
| QuizParserFacts.ContinuationLines | markdown_quiz_exporter_tool/quiz_parser.py:204-212 | a continuation holds neither an answer line nor the reason marker |
| QuizParserFacts.ListedAnswersCorrect | markdown_quiz_exporter_tool/quiz_parser.py:233 | some answer is correct exactly when some listed line's flag is `X` or `x` |
| QuizParserFacts.BlockWithoutAnswerLines | markdown_quiz_exporter_tool/quiz_parser.py:222-231 | a block without answer lines yields no answers |
| QuizParserFacts.BlockAnswerLines | markdown_quiz_exporter_tool/quiz_parser.py:147-220 | a block's answers are those of the answer lines from its first answer line up to the reason marker |
| QuizParserFacts.CheckBlockCases | markdown_quiz_exporter_tool/quiz_parser.py:156-258 | no question text fails at line 0; no answer line fails "No answers found" at line 0; the first answer of the other shape fails "Mixed answer types" at its own line; no correct answer fails at the first answer line; otherwise the question has the text, listed answers, reason and the first answer's type |
| QuizParserFacts.ListedQuestionWellFormed | markdown_quiz_exporter_tool/quiz_parser.py:253-258 | a question built from a block with text and a correct answer is well-formed |
| QuizParserFacts.CheckedQuestionWellFormed | markdown_quiz_exporter_tool/quiz_parser.py:156-161 | a block that passes the checks yields non-empty stripped text, at least one answer, one of them correct, stripped texts and reason, and the type named by the first answer's shape |
| QuizParserFacts.FirstFailing | markdown_quiz_exporter_tool/quiz_parser.py:113-117 | the result is the first piece whose block fails, or the number of pieces |
| QuizParserFacts.OutcomeAt | markdown_quiz_exporter_tool/quiz_parser.py:108-115 | a piece has no outcome exactly when it is blank; a question it yields is well-formed |
| QuizParserFacts.BlocksReference | markdown_quiz_exporter_tool/quiz_parser.py:96-122 | the block loop equals the declarative description: the questions of the pieces before the first failing one, and that failure |
| QuizParserFacts.ParseContentCases | markdown_quiz_exporter_tool/quiz_parser.py:96-127 | parsing fails with the first failing block's error; otherwise it fails with "No questions found" when no question was found; otherwise it returns the questions in piece order |
| QuizParserFacts.BlocksOfIgnoresOffset | markdown_quiz_exporter_tool/quiz_parser.py:98-101 | the loop's questions and error do not depend on the line offset it starts with |
| QuizParserFacts.ParsedQuestionsWellFormed | markdown_quiz_exporter_tool/quiz_parser.py:113-127 | a successful parse yields at least one question, and every question is well-formed |
| QuizParserFacts.ParsedQuestionCount | markdown_quiz_exporter_tool/quiz_parser.py:108-115 | a successful parse yields one question per non-blank piece |
| QuizParserFacts.EmptyFileHasNoQuestions | markdown_quiz_exporter_tool/quiz_parser.py:124-125 | an empty file fails with "No questions found in the quiz file" and no details |
| Anki.NormalizeText | markdown_quiz_exporter_tool/anki.py:165-176 | the result is single-spaced, has the same words as the input, holds no line feed or tab, and is "" exactly when the stripped input is |
| Anki.NormalizeIdempotent | markdown_quiz_exporter_tool/anki.py:174-176 | normalising twice is normalising once |
| Anki.CountCorrect | markdown_quiz_exporter_tool/anki.py:122 | the count of correct answers is at most the number of answers, and positive exactly when some answer is correct |
| Anki.GetQType | markdown_quiz_exporter_tool/anki.py:113-128 | the type is "2" or "1" |
| Anki.QTypeOfParsedQuestion | markdown_quiz_exporter_tool/anki.py:122-128 | for a parsed question, "1" exactly when it is multiple choice with two or more correct answers; "2" exactly when it is single choice or has one correct answer |
| Anki.AnswerOptions | markdown_quiz_exporter_tool/anki.py:130-146 | there are always five options |
| Anki.FormatAnswerOptions | markdown_quiz_exporter_tool/anki.py:139-146 | the padding loop yields option i as the normalised text of answer i for the first five answers, and "" for the empty slots |
| Anki.FormatAnswersBinary | markdown_quiz_exporter_tool/anki.py:157-163 | the slot loop computes `AnswersBinary` |
| Anki.AnswersBinary | markdown_quiz_exporter_tool/anki.py:157-163 | the bitmap is nine characters long: five one-character tokens and four separators |
| Anki.AnswersBinaryLayout | markdown_quiz_exporter_tool/anki.py:157-163 | the bitmap has nine characters: token i is "1" exactly when answer i exists and is correct, and the tokens are separated by single spaces |
| Anki.AnswersBinaryOneLine | markdown_quiz_exporter_tool/anki.py:157-163 | the bitmap holds no line feed and no semicolon |
| Anki.HeaderLines | markdown_quiz_exporter_tool/anki.py:47-52 | both exporters' header lists (lines 47-52 and 182-187) have four lines, each a `#` directive without line feed, and both start with `#separator:Semicolon` |
| Anki.AllInOneRow | markdown_quiz_exporter_tool/anki.py:98-111 | an AllInOne row has twelve fields |
| Anki.AllInOneRowFields | markdown_quiz_exporter_tool/anki.py:88-111 | the fields are, in order: normalised question, "", the type, the five options, the bitmap, "", the normalised reason, and "quiz" |
| Anki.AllInOneRowOneLine | markdown_quiz_exporter_tool/anki.py:89-111 | no field of the row holds a line feed |
| Anki.FormatAllInOneRow | markdown_quiz_exporter_tool/anki.py:79-111 | the method builds exactly `AllInOneRow` |
| Anki.ExportAllInOne | markdown_quiz_exporter_tool/anki.py:47-77 | the export writes the four AllInOne headers and one row per question, in order, and returns the number of questions |
| Anki.CorrectTexts | markdown_quiz_exporter_tool/anki.py:238 | there is one text per correct answer |
| Anki.SoleCorrectText | markdown_quiz_exporter_tool/anki.py:238-242 | with exactly one correct answer, its text is the only one listed |
| Anki.NoCorrectTexts | markdown_quiz_exporter_tool/anki.py:238-244 | with no correct answer, no text is listed |
| Anki.CorrectTextsListed | markdown_quiz_exporter_tool/anki.py:238 | the listed texts are, in order, the texts of the answers at exactly the correct indices |
| Anki.AnswerSection | markdown_quiz_exporter_tool/anki.py:240-244 | one correct answer gives a section starting "Answer: "; any other number one starting "Answers: " |
| Anki.AnswerSectionLists | markdown_quiz_exporter_tool/anki.py:238-244 | for the increasing list of exactly the correct indices: its length is the number of correct answers; one index gives "Answer: " and that answer's text; any other number gives "Answers: " and those answers' texts, in order, joined by ", " |
| Anki.FormatBack | markdown_quiz_exporter_tool/anki.py:229-252 | the back is the answer section, followed, exactly when the stripped reason is non-empty, by "<br><br>Explanation: " and the normalised reason |
| Anki.BackOfQuestion | markdown_quiz_exporter_tool/anki.py:238-252 | one correct answer gives "Answer: t"; a blank reason adds nothing; otherwise "<br><br>Explanation: " and the normalised reason follow |
| Anki.BasicRow | markdown_quiz_exporter_tool/anki.py:214-227 | a Basic row has three fields: the normalised, single-spaced question, the back `FormatBack` builds, and "recall" |
| Anki.ExportBasic | markdown_quiz_exporter_tool/anki.py:182-212 | the export writes the four Basic headers and one row per question, in order, and returns the number of questions |
| FlashcardHero.LazyGroupEnd | markdown_quiz_exporter_tool/flashcard_hero.py:132-138 | a lazy group ends where the closing delimiter occurs, after at least one character |
| FlashcardHero.LazyGroupShortest | markdown_quiz_exporter_tool/flashcard_hero.py:132-138 | the group is the shortest one: the closing delimiter occurs nowhere before its end |
| FlashcardHero.LazyGroupOnOneLine | markdown_quiz_exporter_tool/flashcard_hero.py:132-138 | a group never crosses a line feed |
| FlashcardHero.SpanAt | markdown_quiz_exporter_tool/flashcard_hero.py:132-138 | a span starts with the opening delimiter, has a non-empty inside, and ends with the closing delimiter |
| FlashcardHero.LinkFrom | markdown_quiz_exporter_tool/flashcard_hero.py:141 | a link's text ends no earlier than the first end tried, and its end leaves room for `](`, a non-empty target and `)` inside the text |
| FlashcardHero.LinkFromShape | markdown_quiz_exporter_tool/flashcard_hero.py:141 | a link found has `](` where its text ends, then a non-empty target, then `)` as its last character |
| FlashcardHero.LinkReplacedByText | markdown_quiz_exporter_tool/flashcard_hero.py:141 | after text without `[`, a link `[t](u)` with non-empty one-line `t` without `]` and `u` without `)` is replaced by `t`, and the substitution goes on after its `)` |
| FlashcardHero.SubLinksShift | markdown_quiz_exporter_tool/flashcard_hero.py:141 | the link substitution from a position ignores the text before it |
| FlashcardHero.SubSpansAbsent | markdown_quiz_exporter_tool/flashcard_hero.py:132-138 | a substitution whose delimiter does not occur leaves the text unchanged |
| FlashcardHero.SubLinksAbsent | markdown_quiz_exporter_tool/flashcard_hero.py:141 | with no `[` the link substitution leaves the text unchanged |
| FlashcardHero.SubSpansShorter | markdown_quiz_exporter_tool/flashcard_hero.py:132-138 | a span substitution is never longer than the text it scans |
| FlashcardHero.SubLinksShorter | markdown_quiz_exporter_tool/flashcard_hero.py:141 | the link substitution is never longer than the text it scans |
| FlashcardHero.StripMarkdownShorter | markdown_quiz_exporter_tool/flashcard_hero.py:122-143 | stripping markdown, in its four passes, never lengthens the text |
| FlashcardHero.PlainTextUnchanged | markdown_quiz_exporter_tool/flashcard_hero.py:131-143 | text with no `*`, no backtick and no `[` is returned unchanged |
| FlashcardHero.BoldExample | markdown_quiz_exporter_tool/flashcard_hero.py:132 | `**a**` becomes `a` |
| FlashcardHero.LinkExample | markdown_quiz_exporter_tool/flashcard_hero.py:141 | `[a](u)` becomes `a` |
| FlashcardHero.SubSpansKeepsText | markdown_quiz_exporter_tool/flashcard_hero.py:132-138 | a span substitution removes only delimiter characters: apart from them, the text is kept in order |
| FlashcardHero.MarkupPassesKeepText | markdown_quiz_exporter_tool/flashcard_hero.py:131-138 | the bold and italic passes keep every character other than `*`, and the code pass every character other than a backtick |
| FlashcardHero.FormatCardText | markdown_quiz_exporter_tool/flashcard_hero.py:55-73 | a formatted side is single-spaced, holds no tab or line feed, and has the words of the markdown-stripped text |
| FlashcardHero.PlainTextFormatsToItself | markdown_quiz_exporter_tool/flashcard_hero.py:102-120 | plain text formats to its collapsed form, and single-spaced plain text to itself |
| FlashcardHero.SingleSpacedIsCollapsed | markdown_quiz_exporter_tool/flashcard_hero.py:68 | collapsing single-spaced text changes nothing |
| FlashcardHero.SingleSpacedWords | markdown_quiz_exporter_tool/flashcard_hero.py:68 | single-spaced text is its words joined by spaces |
| FlashcardHero.CorrectAnswers | markdown_quiz_exporter_tool/flashcard_hero.py:87 | the filter is no longer than the answers and keeps only correct answers of the question |
| FlashcardHero.CorrectAnswersListed | markdown_quiz_exporter_tool/flashcard_hero.py:87 | the filter is exactly the answers at the increasing list of the correct indices: each correct answer once, in the original order |
| FlashcardHero.CorrectAnswersComplete | markdown_quiz_exporter_tool/flashcard_hero.py:87 | every correct answer is kept |
| FlashcardHero.CardTexts | markdown_quiz_exporter_tool/flashcard_hero.py:93 | one formatted text per correct answer, in order |
| FlashcardHero.FormatAnswer | markdown_quiz_exporter_tool/flashcard_hero.py:75-100 | the back holds no tab and no line feed |
| FlashcardHero.FormatAnswerCases | markdown_quiz_exporter_tool/flashcard_hero.py:87-100 | no correct answer gives "No correct answer found"; one gives its formatted text; several give their formatted texts joined by "; " |
| FlashcardHero.CorrectAnswerShown | markdown_quiz_exporter_tool/flashcard_hero.py:87-97 | a question with a correct answer never shows the fallback, and a sole correct answer is shown formatted |
| FlashcardHero.TsvLine | markdown_quiz_exporter_tool/flashcard_hero.py:42-46 | a card line holds no line feed |
| FlashcardHero.TsvLines | markdown_quiz_exporter_tool/flashcard_hero.py:39-47 | one card line per question, in order |
| FlashcardHero.Export | markdown_quiz_exporter_tool/flashcard_hero.py:39-53 | the loop's content is the card lines joined by line feeds, plus a final line feed, and the count is the number of questions |
| FlashcardHero.TsvLineReadsBack | markdown_quiz_exporter_tool/flashcard_hero.py:46 | splitting a card line at the tab gives back exactly the front and the back |
| FlashcardHero.TsvReadsBack | markdown_quiz_exporter_tool/flashcard_hero.py:46-50 | splitting the content at line feeds gives the card lines and one empty tail, and each line splits into its question's front and back |
| QuizHtml.SplitOnce | markdown_quiz_exporter_tool/quiz_html.py:200 | `split(":", 1)` gives one piece exactly when there is no colon, and otherwise a colon-free head and a tail that rebuild the text around the first colon |
| QuizHtml.SplitOnceOfJoin | markdown_quiz_exporter_tool/quiz_html.py:200 | a colon-free head, a colon and any tail split back into the head and the tail |
| QuizHtml.ExtractCategory | markdown_quiz_exporter_tool/quiz_html.py:189-205 | no colon gives ""; otherwise the category is non-empty exactly when the stripped head is upper case and shorter than 30 characters, and then it is that head |
| QuizHtml.NoColonNoCategory | markdown_quiz_exporter_tool/quiz_html.py:199-205 | text without a colon has no category and is left unchanged by cleaning |
| QuizHtml.CleanQuestionText | markdown_quiz_exporter_tool/quiz_html.py:207-219 | without a category the text is unchanged; with one, the result is stripped and shorter than the text |
| QuizHtml.CategoryAndTextRebuild | markdown_quiz_exporter_tool/quiz_html.py:199-219 | a categorised text is a colon-free head, a colon and a tail, whose stripped forms are the category and the cleaned text |
| QuizHtml.CategoryExample | markdown_quiz_exporter_tool/quiz_html.py:199-204 | "S3: Why?" has category "S3" |
| QuizHtml.CleanTextExample | markdown_quiz_exporter_tool/quiz_html.py:216-218 | "S3: Why?" cleans to "Why?" |
| QuizHtml.LowerCasePrefixExample | markdown_quiz_exporter_tool/quiz_html.py:203-205 | "Note: x" has no category, because its head holds lower-case letters |
| QuizHtml.AnswerRecords | markdown_quiz_exporter_tool/quiz_html.py:185 | one record per answer |
| QuizHtml.AnswersOf | markdown_quiz_exporter_tool/quiz_html.py:185 | one answer per record |
| QuizHtml.AnswerRecordsRoundTrip | markdown_quiz_exporter_tool/quiz_html.py:185 | the records keep every answer's text and correctness, in order |
| QuizHtml.QuestionToDict | markdown_quiz_exporter_tool/quiz_html.py:168-187 | the record copies the type and the reason, keeps the answers in order, and holds the category and the cleaned text |
| QuizHtml.BuildQuizData | markdown_quiz_exporter_tool/quiz_html.py:162-165 | the quiz data keeps the title and holds one record per question, in order |
| QuizHtml.QuizDataKeepsQuestions | markdown_quiz_exporter_tool/quiz_html.py:162-165 | entry i of the quiz data keeps question i's answers, type and reason |
| QuizHtml.HtmlEscape | markdown_quiz_exporter_tool/quiz_html.py:64 | the escaped title holds no `<`, `>`, `"` or `'` and is no shorter than the title |
| QuizHtml.EscapeAppend | markdown_quiz_exporter_tool/quiz_html.py:64 | escaping works character by character: escaping a concatenation concatenates the escapes |
| QuizHtml.EscapePlain | markdown_quiz_exporter_tool/quiz_html.py:64 | a title with no special character is unchanged |
| QuizHtml.UnescapeStep | markdown_quiz_exporter_tool/quiz_html.py:64 | decoding the escape of one character, in front of any text, gives that character back |
| QuizHtml.EscapeRoundTrip | markdown_quiz_exporter_tool/quiz_html.py:64 | escaping loses nothing: decoding the five references gives the title back |
| QuizHtml.TitleElement | markdown_quiz_exporter_tool/quiz_html.py:64-68 | the title element is the escaped title inside the 15 characters of its tags |
| QuizHtml.TitleHasOnlyItsTags | markdown_quiz_exporter_tool/quiz_html.py:64-68 | the only `<` or `>` in the title element belong to its own tags |
| QuizHtml.TitleWithAmpersand | markdown_quiz_exporter_tool/quiz_html.py:64-68 | a title "a & b" with plain a and b is written `<title>a &amp; b</title>` |
| QuizHtml.TitleExample | markdown_quiz_exporter_tool/quiz_html.py:64 | "Test & Quiz" escapes to "Test &amp; Quiz" |

## Left out

- Reading the quiz file: the path's existence and its UTF-8 content are a parameter, `fileContent`.
- Writing the output files (`write_text`, `open`, `csv.writer`): rows and lines are returned instead.
- CSV quoting (`csv.QUOTE_MINIMAL`) and `json.dumps`: the model produces the rows and records, not their encoded text.
- The byte count that the HTML generator returns, and the HTML page itself. That covers the CSS, the head and body templates, and the embedded JavaScript app with its DOM, session storage, clock and random shuffle.
- `docx.py` and both command-line modules: these are python-docx calls, click plumbing, logging and console output.
- Unicode semantics. Whitespace for `strip` and `split` is the ASCII set. Python also treats `\x1c`-`\x1f`, `\x85`, `\xa0` and other Unicode spaces as whitespace.
- QuizHtml.IsUpper: cased and lower-case letters are ASCII only; Python's `isupper` consults the full Unicode tables.
- QuizHtml.HtmlEscape: modelled as the per-character substitution `html.escape` performs with `quote=True`. QuizHtml.Unescape decodes only the five references it produces, not HTML's full set.
- The generic-exception wrapper of the block loop (`quiz_parser.py:118-120`). The modelled block checks raise only `QuizParseError`, so the wrapper has nothing to wrap.
- Regular expressions in general: the two answer patterns and the four markdown substitutions are hand-written matchers for those specific patterns.
- Block separator: blocks are split on every occurrence of the substring `---` (`quiz_parser.py:96`), not only on a line of its own.
- Line numbers: reported line numbers are computed as `quiz_parser.py:103-106` computes them, and they are not the true file lines. A piece's own line feeds already reach the separator's line, and the loop adds one more line for the separator, so each separator is counted twice. Stripping a block removes its leading blank lines, which moves the report earlier. For `"A\n---\nB"` an error in `B` is reported at line 4, though `B` is on line 3. A block after k separators is reported 2k lines late, less the line feeds stripped from its front; in the usual layout every block after the first is misreported.
- Parser reuse: `questions` is never cleared, and the model keeps that. `QuizParser.QuizParser.Parse` states its result in terms of the questions already held. `ParseQuizFile` and `ParseFile` use a fresh parser.
