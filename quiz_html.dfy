/**
 * The data side of the single-page HTML quiz: the optional `CATEGORY:`
 * prefix of a question, the record each question becomes, the quiz-data
 * record, and the escaped page title.  The page's markup, styles and
 * script are fixed text and are not modelled.
 */
module QuizHtml {
  import opened Wrappers
  import opened Text
  import opened QuizParser

  /** A category must be shorter than this many characters. */
  const CategoryLimit := 30

  // ---------------------------------------------------------------------------
  // the category prefix
  // ---------------------------------------------------------------------------

  predicate IsUpperChar(c: char) {
    'A' <= c <= 'Z'
  }

  predicate IsLowerChar(c: char) {
    'a' <= c <= 'z'
  }

  /** `str.isupper`: at least one cased character, and no cased character in lower case. */
  predicate IsUpper(s: string) {
    && (exists i :: 0 <= i < |s| && IsUpperChar(s[i]))
    && (forall i :: 0 <= i < |s| ==> !IsLowerChar(s[i]))
  }

  /** `s.find(":")` finds something exactly when `":" in s`. */
  lemma ColonFound(s: string)
    ensures FindFrom(s, ":", 0).Some? <==> ':' in s
  {
    if ':' !in s {
      NoCharNoFind(s, ':');
    } else {
      var k :| 0 <= k < |s| && s[k] == ':';
      assert OccursAt(s, ":", k) by {
        assert s[k..k + 1] == [s[k]];
      }
    }
  }

  /**
   * `text.split(":", 1)`: the whole text when it holds no colon, otherwise
   * the part before the first colon and the part after it.
   */
  function SplitOnce(text: string): (parts: seq<string>)
    ensures |parts| == 1 <==> ':' !in text
    ensures |parts| == 1 || |parts| == 2
    ensures |parts| == 1 ==> parts[0] == text
    ensures |parts| == 2 ==> text == parts[0] + ":" + parts[1] && ':' !in parts[0]
  {
    ColonFound(text);
    match FindFrom(text, ":", 0)
    case None => [text]
    case Some(k) =>
      assert text == text[..k] + ":" + text[k + 1..] by {
        assert text[k..k + 1] == ":";
      }
      assert ':' !in text[..k] by {
        forall j | 0 <= j < k ensures text[..k][j] != ':' {
          assert !OccursAt(text, ":", j);
          assert text[j..j + 1] == [text[j]];
        }
      }
      [text[..k], text[k + 1..]]
  }

  /**
   * `_extract_category`: the stripped text before the first colon, when
   * there is a colon and that text is upper case and shorter than 30
   * characters; otherwise "".
   */
  function ExtractCategory(text: string): (r: string)
    ensures ':' !in text ==> r == ""
    ensures ':' in text ==>
      var candidate := Strip(SplitOnce(text)[0]);
      (r != "" <==> IsUpper(candidate) && |candidate| < CategoryLimit)
    ensures r != "" ==> r == Strip(SplitOnce(text)[0])
    ensures r != "" ==> IsUpper(r) && |r| < CategoryLimit && IsStripped(r) && ':' !in r
  {
    var parts := SplitOnce(text);
    if |parts| == 2 then
      var candidate := Strip(parts[0]);
      StripChars(parts[0]);
      if IsUpper(candidate) && |candidate| < CategoryLimit then candidate else ""
    else ""
  }

  /**
   * `_clean_question_text`: the text unchanged when it has no category,
   * otherwise the stripped text after the first colon.
   */
  function CleanQuestionText(text: string): (r: string)
    ensures ExtractCategory(text) == "" ==> r == text
    ensures ExtractCategory(text) != "" ==> IsStripped(r) && |r| < |text|
  {
    if ExtractCategory(text) != "" then
      var parts := SplitOnce(text);
      Strip(parts[1])
    else text
  }

  /**
   * A question text with a category is, piece by piece, the category
   * padded with whitespace, a colon, and the cleaned text padded with
   * whitespace: the two parts of the record put together give back the text.
   */
  lemma CategoryAndTextRebuild(text: string)
    requires ExtractCategory(text) != ""
    ensures exists before, after ::
      && text == before + ":" + after
      && ':' !in before
      && Strip(before) == ExtractCategory(text)
      && Strip(after) == CleanQuestionText(text)
  {
    var parts := SplitOnce(text);
    var before, after := parts[0], parts[1];
    assert text == before + ":" + after && ':' !in before;
    assert Strip(before) == ExtractCategory(text);
    assert Strip(after) == CleanQuestionText(text);
  }

  /** A text without a colon has no category and is kept as it is. */
  lemma NoColonNoCategory(text: string)
    requires ':' !in text
    ensures ExtractCategory(text) == "" && CleanQuestionText(text) == text
  {
  }

  /** Splitting `before + ":" + after` once gives the two parts back when `before` holds no colon. */
  lemma SplitOnceOfJoin(before: string, after: string)
    requires ':' !in before
    ensures SplitOnce(before + ":" + after) == [before, after]
  {
    var text := before + ":" + after;
    var k := |before|;
    assert text[k..k + 1] == ":";
    assert OccursAt(text, ":", k);
    forall j: nat | j < k ensures !OccursAt(text, ":", j) {
      assert text[j..j + 1] == [before[j]];
    }
    assert text[..k] == before && text[k + 1..] == after;
  }

  /** "S3: Why?" has the category "S3": digits are not cased. */
  lemma CategoryExample()
    ensures ExtractCategory("S3: Why?") == "S3"
  {
    assert "S3: Why?" == "S3" + ":" + " Why?";
    SplitOnceOfJoin("S3", " Why?");
    StripOfStripped("S3");
    assert IsUpperChar("S3"[0]);
  }

  lemma StripExample()
    ensures Strip(" Why?") == "Why?"
  {
    assert SpaceEnd(" Why?", 0) == 1;
  }

  /** The text of "S3: Why?" without its category is "Why?". */
  lemma CleanTextExample()
    ensures CleanQuestionText("S3: Why?") == "Why?"
  {
    var text := "S3: Why?";
    CategoryExample();
    assert text == "S3" + ":" + " Why?";
    SplitOnceOfJoin("S3", " Why?");
    StripExample();
  }

  /** A prefix with a lower-case letter is not a category. */
  lemma LowerCasePrefixExample()
    ensures ExtractCategory("Note: x") == ""
  {
    assert "Note: x" == "Note" + ":" + " x";
    SplitOnceOfJoin("Note", " x");
    StripOfStripped("Note");
    assert IsLowerChar("Note"[1]);
  }

  // ---------------------------------------------------------------------------
  // the quiz-data records
  // ---------------------------------------------------------------------------

  datatype AnswerRecord = AnswerRecord(text: string, correct: bool)

  datatype QuestionRecord = QuestionRecord(
    category: string,
    text: string,
    qtype: string,
    answers: seq<AnswerRecord>,
    reason: string)

  datatype QuizData = QuizData(title: string, questions: seq<QuestionRecord>)

  /** One `{"text", "correct"}` record per answer, in order. */
  function AnswerRecords(answers: seq<Answer>): (rs: seq<AnswerRecord>)
    ensures |rs| == |answers|
  {
    seq(|answers|, i requires 0 <= i < |answers| => AnswerRecord(answers[i].text, answers[i].isCorrect))
  }

  /** Reading the answers back from their records. */
  function AnswersOf(rs: seq<AnswerRecord>): (answers: seq<Answer>)
    ensures |answers| == |rs|
  {
    seq(|rs|, i requires 0 <= i < |rs| => Answer(rs[i].text, rs[i].correct))
  }

  /** The answer records lose nothing: text, correctness, count and order come back. */
  lemma AnswerRecordsRoundTrip(answers: seq<Answer>)
    ensures AnswersOf(AnswerRecords(answers)) == answers
  {
    var back := AnswersOf(AnswerRecords(answers));
    forall i | 0 <= i < |answers| ensures back[i] == answers[i] {
      assert back[i] == Answer(answers[i].text, answers[i].isCorrect);
    }
  }

  /**
   * `_question_to_dict`: the category and the cleaned text, the question
   * type, the answers as records, and the reason.
   */
  function QuestionToDict(q: Question): (r: QuestionRecord)
    ensures r.qtype == q.questionType && r.reason == q.reason
    ensures AnswersOf(r.answers) == q.answers
    ensures r.category == ExtractCategory(q.text) && r.text == CleanQuestionText(q.text)
  {
    AnswerRecordsRoundTrip(q.answers);
    QuestionRecord(
      ExtractCategory(q.text),
      CleanQuestionText(q.text),
      q.questionType,
      AnswerRecords(q.answers),
      q.reason)
  }

  /** The record shape of `_build_quiz_data`: the title, and one record per question in order. */
  function BuildQuizData(title: string, questions: seq<Question>): (d: QuizData)
    ensures d.title == title && |d.questions| == |questions|
    ensures forall i :: 0 <= i < |questions| ==> d.questions[i] == QuestionToDict(questions[i])
  {
    QuizData(title, seq(|questions|, i requires 0 <= i < |questions| => QuestionToDict(questions[i])))
  }

  /** The quiz data of a list of questions lists their answers, their types and their reasons unchanged. */
  lemma QuizDataKeepsQuestions(title: string, questions: seq<Question>, i: nat)
    requires i < |questions|
    ensures var r := BuildQuizData(title, questions).questions[i];
      && AnswersOf(r.answers) == questions[i].answers
      && r.qtype == questions[i].questionType
      && r.reason == questions[i].reason
  {
  }

  // ---------------------------------------------------------------------------
  // the escaped title
  // ---------------------------------------------------------------------------

  /** `html.escape` of one character, quotes included. */
  function EscapeChar(c: char): string {
    if c == '&' then "&amp;"
    else if c == '<' then "&lt;"
    else if c == '>' then "&gt;"
    else if c == '"' then "&quot;"
    else if c == '\'' then "&#x27;"
    else [c]
  }

  predicate IsMarkup(c: char) {
    c == '<' || c == '>' || c == '"' || c == '\''
  }

  /**
   * `html.escape(s)`: the ampersand, the angle brackets and both quotes are
   * replaced by character references, so the result holds no markup character.
   */
  function HtmlEscape(s: string): (r: string)
    ensures forall i :: 0 <= i < |r| ==> !IsMarkup(r[i])
    ensures |r| >= |s|
  {
    if s == [] then []
    else EscapeChar(s[0]) + HtmlEscape(s[1..])
  }

  /** Escaping a concatenation escapes each part. */
  lemma {:induction false} EscapeAppend(a: string, b: string)
    ensures HtmlEscape(a + b) == HtmlEscape(a) + HtmlEscape(b)
  {
    if a == [] {
      assert a + b == b;
    } else {
      assert (a + b)[0] == a[0];
      assert (a + b)[1..] == a[1..] + b;
      EscapeAppend(a[1..], b);
    }
  }

  /** Text with none of the five special characters is its own escape. */
  lemma {:induction false} EscapePlain(s: string)
    requires forall i :: 0 <= i < |s| ==> s[i] != '&' && !IsMarkup(s[i])
    ensures HtmlEscape(s) == s
  {
    if s != [] {
      EscapePlain(s[1..]);
    }
  }

  /** Decoding of the five character references that the escape produces. */
  function Unescape(s: string): (r: string)
    decreases |s|
  {
    if s == [] then []
    else if s[0] != '&' then [s[0]] + Unescape(s[1..])
    else if |s| >= 5 && s[..5] == "&amp;" then "&" + Unescape(s[5..])
    else if |s| >= 4 && s[..4] == "&lt;" then "<" + Unescape(s[4..])
    else if |s| >= 4 && s[..4] == "&gt;" then ">" + Unescape(s[4..])
    else if |s| >= 6 && s[..6] == "&quot;" then "\"" + Unescape(s[6..])
    else if |s| >= 6 && s[..6] == "&#x27;" then "'" + Unescape(s[6..])
    else [s[0]] + Unescape(s[1..])
  }

  lemma UnescapePlain(c: char, rest: string)
    requires c != '&'
    ensures Unescape([c] + rest) == [c] + Unescape(rest)
  {
    assert ([c] + rest)[1..] == rest;
  }

  /** Decoding one character reference `ref` of length `n` in front of any text. */
  lemma UnescapeReference(ref: string, c: char, rest: string)
    requires (ref, c) in {("&amp;", '&'), ("&lt;", '<'), ("&gt;", '>'), ("&quot;", '"'), ("&#x27;", '\'')}
    ensures Unescape(ref + rest) == [c] + Unescape(rest)
  {
    var s := ref + rest;
    assert s[..|ref|] == ref && s[|ref|..] == rest;
    assert s[0] == '&' && s[1] == ref[1];
  }

  /** Decoding an escaped character in front of any text gives the character back. */
  lemma UnescapeStep(c: char, rest: string)
    ensures Unescape(EscapeChar(c) + rest) == [c] + Unescape(rest)
  {
    if c == '&' {
      UnescapeReference("&amp;", c, rest);
    } else if c == '<' {
      UnescapeReference("&lt;", c, rest);
    } else if c == '>' {
      UnescapeReference("&gt;", c, rest);
    } else if c == '"' {
      UnescapeReference("&quot;", c, rest);
    } else if c == '\'' {
      UnescapeReference("&#x27;", c, rest);
    } else {
      UnescapePlain(c, rest);
    }
  }

  /** Escaping loses nothing: decoding the escaped text gives the text back. */
  lemma {:induction false} EscapeRoundTrip(s: string)
    ensures Unescape(HtmlEscape(s)) == s
  {
    if s != [] {
      EscapeRoundTrip(s[1..]);
      UnescapeStep(s[0], HtmlEscape(s[1..]));
    }
  }

  /** The `<title>` element of the page head. */
  function TitleElement(title: string): (r: string)
    ensures |r| == 15 + |HtmlEscape(title)|
  {
    "<title>" + HtmlEscape(title) + "</title>"
  }

  /** The title cannot open or close a tag: the only angle brackets of the element are its own. */
  lemma TitleHasOnlyItsTags(title: string)
    ensures var r := TitleElement(title);
      forall i :: 0 <= i < |r| && (r[i] == '<' || r[i] == '>') ==> i < 7 || i >= |r| - 8
  {
    var r := TitleElement(title);
    var inner := HtmlEscape(title);
    forall i | 7 <= i < |r| - 8 ensures r[i] != '<' && r[i] != '>' {
      assert r[i] == inner[i - 7];
    }
  }

  /** An ampersand between plain texts becomes `&amp;`, the rest is kept. */
  lemma EscapeAmpersand(a: string, b: string)
    requires forall i :: 0 <= i < |a| ==> a[i] != '&' && !IsMarkup(a[i])
    requires forall i :: 0 <= i < |b| ==> b[i] != '&' && !IsMarkup(b[i])
    ensures HtmlEscape(a + "&" + b) == a + "&amp;" + b
  {
    EscapeAppend(a + "&", b);
    EscapeAppend(a, "&");
    EscapePlain(a);
    EscapePlain(b);
    assert HtmlEscape("&") == "&amp;";
    assert HtmlEscape(a + "&" + b) == (a + "&amp;") + b;
  }

  /** In the title element, an ampersand between plain texts appears as `&amp;`. */
  lemma TitleWithAmpersand(a: string, b: string)
    requires forall i :: 0 <= i < |a| ==> a[i] != '&' && !IsMarkup(a[i])
    requires forall i :: 0 <= i < |b| ==> b[i] != '&' && !IsMarkup(b[i])
    ensures TitleElement(a + "&" + b) == "<title>" + a + "&amp;" + b + "</title>"
  {
    EscapeAmpersand(a, b);
  }

  /** The title "Test & Quiz" is escaped to "Test &amp; Quiz". */
  lemma TitleExample()
    ensures HtmlEscape("Test & Quiz") == "Test &amp; Quiz"
  {
    var title, escaped := "Test & Quiz", "Test &amp; Quiz";
    assert title == "Test " + "&" + " Quiz";
    assert escaped == "Test " + "&amp;" + " Quiz";
    EscapeAmpersand("Test ", " Quiz");
  }
}
