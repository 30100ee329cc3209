/**
 * The Anki exporters.  The AllInOne note type gets one 12-field quiz row per
 * question (question, title, QType, five answer slots, the correctness
 * bitmap, sources, explanation, tags); the Basic note type gets one recall
 * row (front, back, tags).  Both files start with four header lines; the
 * rows are written through a CSV writer, whose quoting is not modelled.
 */
module Anki {
  import opened Text
  import opened QuizParser
  import QuizParserFacts

  const AllInOneHeaders: seq<string> := [
    "#separator:Semicolon",
    "#html:false",
    "#notetype:AllInOne (kprim, mc, sc)",
    "#tags:quiz generated"
  ]

  const BasicHeaders: seq<string> := [
    "#separator:Semicolon",
    "#html:false",
    "#notetype:Basic",
    "#tags:quiz recall"
  ]

  /**
   * Every header line is an Anki directive: it starts with `#`, holds no
   * line feed, and both files declare the semicolon the rows are written with.
   */
  lemma HeaderLines()
    ensures forall h :: h in AllInOneHeaders + BasicHeaders ==> |h| > 1 && h[0] == '#' && '\n' !in h
    ensures AllInOneHeaders[0] == BasicHeaders[0] == "#separator:Semicolon"
    ensures |AllInOneHeaders| == |BasicHeaders| == 4
  {
  }

  /** The number of answer slots of the AllInOne note type. */
  const Slots := 5

  // ---------------------------------------------------------------------------
  // shared field builders
  // ---------------------------------------------------------------------------

  /**
   * `_normalize_text`: the words of `text` joined by single spaces, then
   * stripped.  The result holds exactly the words of `text`, one space
   * apart, and so no line break.
   */
  function NormalizeText(text: string): (r: string)
    ensures SingleSpaced(r) && Words(r) == Words(text)
    ensures '\n' !in r && '\t' !in r
    ensures r == [] <==> Strip(text) == []
  {
    var joined := CollapseSpaces(text);
    CollapseIsSingleSpaced(text);
    CollapseKeepsWords(text);
    CollapseEmpty(text);
    StripOfStripped(joined);
    assert forall i :: 0 <= i < |joined| ==> joined[i] != '\n' && joined[i] != '\t';
    Strip(joined)
  }

  /** Normalising twice is normalising once. */
  lemma NormalizeIdempotent(text: string)
    ensures NormalizeText(NormalizeText(text)) == NormalizeText(text)
  {
    var r := NormalizeText(text);
    CollapseIsSingleSpaced(text);
    CollapseIdempotent(text);
    StripOfStripped(CollapseSpaces(text));
    StripOfStripped(r);
  }

  /** `sum(1 for ans in answers if ans.is_correct)`. */
  function CountCorrect(answers: seq<Answer>): (n: nat)
    ensures n <= |answers|
    ensures n > 0 <==> AnyCorrect(answers)
  {
    if answers == [] then 0
    else
      assert forall a :: a in answers <==> a == answers[0] || a in answers[1..];
      (if answers[0].isCorrect then 1 else 0) + CountCorrect(answers[1..])
  }

  // ---------------------------------------------------------------------------
  // the AllInOne note type
  // ---------------------------------------------------------------------------

  /** `_get_qtype`: "2" (single choice) for radio-button questions or exactly one correct answer, "1" otherwise. */
  function GetQType(q: Question): (r: string)
    ensures r == "2" || r == "1"
  {
    if q.questionType == "single" || CountCorrect(q.answers) == 1 then "2" else "1"
  }

  /**
   * A parsed question is exported as multiple choice exactly when its
   * answers are checkboxes and at least two of them are marked correct.
   */
  lemma QTypeOfParsedQuestion(q: Question)
    requires QuizParserFacts.WellFormed(q)
    ensures GetQType(q) == "1" <==> q.questionType == "multiple" && CountCorrect(q.answers) >= 2
    ensures GetQType(q) == "2" <==> q.questionType == "single" || CountCorrect(q.answers) == 1
  {
  }

  /** The five answer fields: answer `i` normalised, or "" when there is no answer `i`. */
  function AnswerOptions(q: Question): (r: seq<string>)
    ensures |r| == Slots
  {
    seq(Slots, i requires 0 <= i < Slots => if i < |q.answers| then NormalizeText(q.answers[i].text) else "")
  }

  /**
   * `_format_answer_options`: the normalised answer texts, padded with ""
   * up to five and cut to five.
   */
  method FormatAnswerOptions(q: Question) returns (r: seq<string>)
    ensures r == AnswerOptions(q)
    ensures forall i :: 0 <= i < Slots && i < |q.answers| ==> r[i] == NormalizeText(q.answers[i].text)
    ensures forall i :: |q.answers| <= i < Slots ==> r[i] == ""
  {
    var options := seq(|q.answers|, i requires 0 <= i < |q.answers| => NormalizeText(q.answers[i].text));
    while |options| < Slots
      invariant |q.answers| <= |options|
      invariant forall i :: 0 <= i < |options| ==>
        options[i] == if i < |q.answers| then NormalizeText(q.answers[i].text) else ""
      decreases Slots - |options|
    {
      options := options + [""];
    }
    r := options[..Slots];
  }

  /** The five correctness flags: "1" in slot `i` exactly when answer `i` exists and is correct. */
  function CorrectFlags(q: Question): (r: seq<string>)
    ensures |r| == Slots
  {
    seq(Slots, i requires 0 <= i < Slots => if i < |q.answers| && q.answers[i].isCorrect then "1" else "0")
  }

  /** The Answers field: the five flags, space-separated. */
  function AnswersBinary(q: Question): (r: string)
    ensures |r| == 2 * Slots - 1
  {
    JoinOfCharacters(CorrectFlags(q));
    Join(CorrectFlags(q), " ")
  }

  /**
   * `_format_answers_binary`: five "0" slots, a "1" written into slot `i`
   * for each correct answer `i` below five, joined with spaces.
   */
  method FormatAnswersBinary(q: Question) returns (r: string)
    ensures r == AnswersBinary(q)
  {
    var binary := new string[Slots](_ => "0");
    for i := 0 to |q.answers|
      invariant forall j :: 0 <= j < Slots ==>
        binary[j] == if j < i && j < |q.answers| && q.answers[j].isCorrect then "1" else "0"
    {
      if i < Slots && q.answers[i].isCorrect {
        binary[i] := "1";
      }
    }
    assert binary[..] == CorrectFlags(q);
    r := Join(binary[..], " ");
  }

  /**
   * The Answers field is nine characters, `'1'` or `'0'` at positions 0, 2,
   * 4, 6 and 8 for the five slots and spaces between them.
   */
  lemma AnswersBinaryLayout(q: Question)
    ensures var b := AnswersBinary(q);
      && |b| == 2 * Slots - 1
      && (forall i :: 0 <= i < Slots ==>
            b[2 * i] == if i < |q.answers| && q.answers[i].isCorrect then '1' else '0')
      && (forall i :: 0 <= i < Slots - 1 ==> b[2 * i + 1] == ' ')
  {
    JoinOfCharacters(CorrectFlags(q));
  }

  /** Joining one-character strings with a space puts them at the even positions. */
  lemma {:induction false} JoinOfCharacters(parts: seq<string>)
    requires parts != [] && forall i :: 0 <= i < |parts| ==> |parts[i]| == 1
    ensures var b := Join(parts, " ");
      && |b| == 2 * |parts| - 1
      && (forall i :: 0 <= i < |parts| ==> b[2 * i] == parts[i][0])
      && (forall i :: 0 <= i < |parts| - 1 ==> b[2 * i + 1] == ' ')
  {
    if |parts| > 1 {
      var rest := parts[1..];
      JoinOfCharacters(rest);
      JoinCons(parts[0], rest, " ");
      assert [parts[0]] + rest == parts;
      var b := Join(parts, " ");
      assert b == parts[0] + " " + Join(rest, " ");
      forall i | 1 <= i < |parts|
        ensures b[2 * i] == parts[i][0]
      {
        assert b[2 * i] == Join(rest, " ")[2 * (i - 1)];
      }
      forall i | 1 <= i < |parts| - 1
        ensures b[2 * i + 1] == ' '
      {
        assert b[2 * i + 1] == Join(rest, " ")[2 * (i - 1) + 1];
      }
    }
  }

  /**
   * `AnkiAllInOneExporter._format_question_row` as the row it builds:
   * Question; Title; QType; Q_1 .. Q_5; Answers; Sources; Extra1; Tags.
   */
  function AllInOneRow(q: Question): (row: seq<string>)
    ensures |row| == 12
  {
    [NormalizeText(q.text), "", GetQType(q)] + AnswerOptions(q) + [AnswersBinary(q), "", NormalizeText(q.reason), "quiz"]
  }

  /** The row's fields in their fixed order; title and sources are empty and the tag is "quiz". */
  lemma AllInOneRowFields(q: Question)
    ensures var row := AllInOneRow(q);
      && row[0] == NormalizeText(q.text) && row[1] == "" && row[2] == GetQType(q)
      && row[3..8] == AnswerOptions(q) && row[8] == AnswersBinary(q)
      && row[9] == "" && row[10] == NormalizeText(q.reason) && row[11] == "quiz"
  {
    assert AllInOneRow(q)[3..8] == AnswerOptions(q);
  }

  /** The Answers field holds only flags and spaces. */
  lemma AnswersBinaryOneLine(q: Question)
    ensures '\n' !in AnswersBinary(q) && ';' !in AnswersBinary(q)
  {
    var b := AnswersBinary(q);
    AnswersBinaryLayout(q);
    forall p | 0 <= p < |b|
      ensures b[p] == '0' || b[p] == '1' || b[p] == ' '
    {
      if p % 2 == 0 {
        assert b[2 * (p / 2)] == b[p];
      } else {
        assert b[2 * (p / 2) + 1] == b[p];
      }
    }
  }

  /** No field of an AllInOne row holds a line break, so each question is one line of the file. */
  lemma AllInOneRowOneLine(q: Question)
    ensures forall i :: 0 <= i < 12 ==> '\n' !in AllInOneRow(q)[i]
  {
    var row := AllInOneRow(q);
    AllInOneRowFields(q);
    AnswersBinaryOneLine(q);
    var options := AnswerOptions(q);
    forall i | 0 <= i < 12
      ensures '\n' !in row[i]
    {
      if 3 <= i < 8 {
        assert row[i] == options[i - 3];
      } else if i == 2 {
        assert row[i] == "1" || row[i] == "2";
      }
    }
  }

  /** The same row, built by the exporter's own steps. */
  method FormatAllInOneRow(q: Question) returns (row: seq<string>)
    ensures row == AllInOneRow(q)
  {
    var questionField := NormalizeText(q.text);
    var qtypeField := GetQType(q);
    var options := FormatAnswerOptions(q);
    var answersField := FormatAnswersBinary(q);
    var extraField := NormalizeText(q.reason);
    row := [questionField, "", qtypeField] + options + [answersField, "", extraField, "quiz"];
  }

  /**
   * `AnkiAllInOneExporter.export`: the header lines, then one row per
   * question in order; the count returned is the number of questions.
   */
  method ExportAllInOne(questions: seq<Question>) returns (headers: seq<string>, rows: seq<seq<string>>, count: nat)
    ensures headers == AllInOneHeaders
    ensures |rows| == |questions|
    ensures forall i :: 0 <= i < |questions| ==> rows[i] == AllInOneRow(questions[i])
    ensures count == |questions|
  {
    headers := [];
    for h := 0 to |AllInOneHeaders|
      invariant headers == AllInOneHeaders[..h]
    {
      headers := headers + [AllInOneHeaders[h]];
    }
    rows := [];
    for i := 0 to |questions|
      invariant |rows| == i
      invariant forall j :: 0 <= j < i ==> rows[j] == AllInOneRow(questions[j])
    {
      var row := FormatAllInOneRow(questions[i]);
      rows := rows + [row];
    }
    count := |questions|;
  }

  // ---------------------------------------------------------------------------
  // the Basic note type
  // ---------------------------------------------------------------------------

  /** The texts of the correct answers, in answer order, as written (not normalised). */
  function CorrectTexts(answers: seq<Answer>): (ts: seq<string>)
    ensures |ts| == CountCorrect(answers)
  {
    if answers == [] then []
    else (if answers[0].isCorrect then [answers[0].text] else []) + CorrectTexts(answers[1..])
  }

  /** The only correct answer is the one the back names. */
  lemma {:induction false} SoleCorrectText(answers: seq<Answer>, k: nat)
    requires k < |answers| && answers[k].isCorrect && CountCorrect(answers) == 1
    ensures CorrectTexts(answers) == [answers[k].text]
  {
    if k == 0 {
      assert CountCorrect(answers[1..]) == 0;
      NoCorrectTexts(answers[1..]);
    } else {
      assert answers[1..][k - 1] == answers[k];
      CountCorrectPositive(answers[1..], k - 1);
      SoleCorrectText(answers[1..], k - 1);
    }
  }

  lemma NoCorrectTexts(answers: seq<Answer>)
    requires CountCorrect(answers) == 0
    ensures CorrectTexts(answers) == []
  {
  }

  lemma CountCorrectPositive(answers: seq<Answer>, k: nat)
    requires k < |answers| && answers[k].isCorrect
    ensures CountCorrect(answers) > 0
  {
    assert answers[k] in answers;
  }

  /** The answer part of the back: "Answer: t" for one correct answer, else "Answers: " and the list. */
  function AnswerSection(q: Question): (r: string)
    ensures CountCorrect(q.answers) == 1 ==> |r| >= 8 && r[..8] == "Answer: "
    ensures CountCorrect(q.answers) != 1 ==> |r| >= 9 && r[..9] == "Answers: "
  {
    var correct := CorrectTexts(q.answers);
    if |correct| == 1 then "Answer: " + correct[0] else "Answers: " + Join(correct, ", ")
  }

  /**
   * `_format_back`: the answer part, followed by an explanation holding the
   * normalised reason when the reason is not blank.
   */
  function FormatBack(q: Question): (r: string)
    ensures |AnswerSection(q)| <= |r| && r[..|AnswerSection(q)|] == AnswerSection(q)
    ensures NormalizeText(q.reason) == "" ==> r == AnswerSection(q)
    ensures NormalizeText(q.reason) != "" ==>
      r == AnswerSection(q) + "<br><br>Explanation: " + NormalizeText(q.reason)
  {
    if Strip(q.reason) != "" then AnswerSection(q) + "<br><br>Explanation: " + NormalizeText(q.reason)
    else AnswerSection(q)
  }

  /**
   * The back names the one correct answer when there is exactly one, and
   * carries an explanation exactly when the normalised reason is not empty.
   */
  lemma BackOfQuestion(q: Question, k: nat)
    requires k < |q.answers| && q.answers[k].isCorrect && CountCorrect(q.answers) == 1
    ensures AnswerSection(q) == "Answer: " + q.answers[k].text
    ensures NormalizeText(q.reason) == "" ==> FormatBack(q) == AnswerSection(q)
    ensures NormalizeText(q.reason) != "" ==>
      FormatBack(q) == AnswerSection(q) + "<br><br>Explanation: " + NormalizeText(q.reason)
  {
    SoleCorrectText(q.answers, k);
  }

  /** The texts of the answers at the listed indices. */
  function TextsAt(answers: seq<Answer>, ks: seq<nat>): (ts: seq<string>)
    requires forall j :: 0 <= j < |ks| ==> ks[j] < |answers|
    ensures |ts| == |ks| && forall j :: 0 <= j < |ks| ==> ts[j] == answers[ks[j]].text
  {
    seq(|ks|, j requires 0 <= j < |ks| => answers[ks[j]].text)
  }

  /**
   * The back's list holds the texts of the correct answers, each once, in
   * answer order: those at the increasing indices of the correct answers.
   */
  lemma CorrectTextsListed(answers: seq<Answer>, ks: seq<nat>)
    requires CorrectIndexList(answers, ks)
    ensures CorrectTexts(answers) == TextsAt(answers, ks)
  {
    assert answers[0..] == answers;
    CorrectTextsFrom(answers, 0, ks);
  }

  lemma {:induction false} CorrectTextsFrom(answers: seq<Answer>, i: nat, ks: seq<nat>)
    requires i <= |answers|
    requires forall j :: 0 <= j < |ks| ==> i <= ks[j] < |answers|
    requires forall j, l :: 0 <= j < l < |ks| ==> ks[j] < ks[l]
    requires forall k :: i <= k < |answers| ==> (answers[k].isCorrect <==> k in ks)
    ensures CorrectTexts(answers[i..]) == TextsAt(answers, ks)
    decreases |answers| - i
  {
    if i == |answers| {
      IndexListLength(ks, i, |answers|);
    } else {
      var rest := answers[i..];
      assert rest[0] == answers[i] && rest[1..] == answers[i + 1..];
      if answers[i].isCorrect {
        CorrectFirstListed(answers, i, ks);
        CorrectTextsFrom(answers, i + 1, ks[1..]);
        TextsAtCons(answers, ks);
      } else {
        assert forall j :: 0 <= j < |ks| ==> ks[j] != i;
        CorrectTextsFrom(answers, i + 1, ks);
      }
    }
  }

  lemma TextsAtCons(answers: seq<Answer>, ks: seq<nat>)
    requires |ks| > 0 && forall j :: 0 <= j < |ks| ==> ks[j] < |answers|
    ensures TextsAt(answers, ks) == [answers[ks[0]].text] + TextsAt(answers, ks[1..])
  {
  }

  /**
   * `_format_back`'s answer part, for the list `ks` of the correct answers'
   * indices: "Answer: " and the text when there is one, otherwise
   * "Answers: " and all their texts, in answer order, joined by ", ".
   */
  lemma AnswerSectionLists(q: Question, ks: seq<nat>)
    requires CorrectIndexList(q.answers, ks)
    ensures |ks| == CountCorrect(q.answers)
    ensures |ks| == 1 ==> AnswerSection(q) == "Answer: " + q.answers[ks[0]].text
    ensures |ks| != 1 ==> AnswerSection(q) == "Answers: " + Join(TextsAt(q.answers, ks), ", ")
  {
    CorrectTextsListed(q.answers, ks);
  }

  /** `AnkiBasicExporter._format_question_row`: Front, Back, Tags. */
  function BasicRow(q: Question): (row: seq<string>)
    ensures |row| == 3 && row[2] == "recall"
    ensures row[0] == NormalizeText(q.text) && SingleSpaced(row[0])
    ensures row[1] == FormatBack(q)
  {
    [NormalizeText(q.text), FormatBack(q), "recall"]
  }

  /**
   * `AnkiBasicExporter.export`: the header lines, then one row per
   * question in order; the count returned is the number of questions.
   */
  method ExportBasic(questions: seq<Question>) returns (headers: seq<string>, rows: seq<seq<string>>, count: nat)
    ensures headers == BasicHeaders
    ensures |rows| == |questions|
    ensures forall i :: 0 <= i < |questions| ==> rows[i] == BasicRow(questions[i])
    ensures count == |questions|
  {
    headers := [];
    for h := 0 to |BasicHeaders|
      invariant headers == BasicHeaders[..h]
    {
      headers := headers + [BasicHeaders[h]];
    }
    rows := [];
    for i := 0 to |questions|
      invariant |rows| == i
      invariant forall j :: 0 <= j < i ==> rows[j] == BasicRow(questions[j])
    {
      var row := BasicRow(questions[i]);
      rows := rows + [row];
    }
    count := |questions|;
  }
}
