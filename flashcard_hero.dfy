/**
 * The Flashcard Hero exporter: one tab-separated line per question, the
 * card's front (the question text) and back (its correct answers), with
 * markdown markup removed and whitespace collapsed.
 */
module FlashcardHero {
  import opened Wrappers
  import opened Text
  import opened QuizParser

  const NoCorrectAnswer := "No correct answer found"
  const AnswerSeparator := "; "

  // ---------------------------------------------------------------------------
  // the four markdown substitutions
  // ---------------------------------------------------------------------------

  /**
   * The end of the lazy group `(.+?)` that starts at `start` and must be
   * followed by `close`, trying the ends from `e` on: the first end at
   * which `close` occurs, provided no line feed comes before it (`.` does
   * not match a line feed).
   */
  function LazyGroupEnd(s: string, close: string, start: nat, e: nat): (r: Option<nat>)
    requires start < e
    ensures r.Some? ==> e <= r.value && OccursAt(s, close, r.value)
    decreases |s| + 1 - e
  {
    if e > |s| || s[e - 1] == '\n' then None
    else if OccursAt(s, close, e) then Some(e)
    else LazyGroupEnd(s, close, start, e + 1)
  }

  /** The lazy group stays on one line: it holds no line feed. */
  lemma {:induction false} LazyGroupOnOneLine(s: string, close: string, start: nat, e: nat)
    requires start < e
    requires forall k :: start <= k < e - 1 && k < |s| ==> s[k] != '\n'
    ensures var r := LazyGroupEnd(s, close, start, e);
      r.Some? ==> forall k :: start <= k < r.value ==> s[k] != '\n'
    decreases |s| + 1 - e
  {
    if e <= |s| && s[e - 1] != '\n' && !OccursAt(s, close, e) {
      LazyGroupOnOneLine(s, close, start, e + 1);
    }
  }

  /** The lazy group is the shortest: `close` occurs at no earlier end. */
  lemma {:induction false} LazyGroupShortest(s: string, close: string, start: nat, e: nat)
    requires start < e
    ensures var r := LazyGroupEnd(s, close, start, e);
      r.Some? ==> forall m :: e <= m < r.value ==> !OccursAt(s, close, m)
    decreases |s| + 1 - e
  {
    if e <= |s| && s[e - 1] != '\n' && !OccursAt(s, close, e) {
      LazyGroupShortest(s, close, start, e + 1);
    }
  }

  /** Where a span `open (.+?) close` that starts at `i` ends its group, if one starts there. */
  function SpanAt(s: string, open: string, close: string, i: nat): (r: Option<nat>)
    ensures r.Some? ==> OccursAt(s, open, i) && i + |open| < r.value && OccursAt(s, close, r.value)
  {
    var start := i + |open|;
    if OccursAt(s, open, i) && start < |s| then LazyGroupEnd(s, close, start, start + 1) else None
  }

  /**
   * `re.sub(open + "(.+?)" + close, r"\1", s[i..])`: from left to right,
   * every span is replaced by its group and the scan resumes after it.
   */
  function SubSpans(s: string, open: string, close: string, i: nat): string
    decreases |s| - i
  {
    if i >= |s| then ""
    else
      var span := SpanAt(s, open, close, i);
      if span.Some? then s[i + |open|..span.value] + SubSpans(s, open, close, span.value + |close|)
      else [s[i]] + SubSpans(s, open, close, i + 1)
  }

  /** `](` stands at `e`: a link text ends there and its target starts. */
  predicate LinkTextEnd(s: string, e: nat) {
    e + 1 < |s| && s[e] == ']' && s[e + 1] == '('
  }

  /**
   * Where a link `[(.+?)]\((.+?)\)` that starts at `i` ends: the end of its
   * text and the position after its `)`, trying the text ends from `e` on.
   */
  function LinkFrom(s: string, i: nat, e: nat): (r: Option<(nat, nat)>)
    requires i + 1 < e
    ensures r.Some? ==> e <= r.value.0 && r.value.0 + 4 <= r.value.1 <= |s|
    decreases |s| + 1 - e
  {
    if e > |s| || s[e - 1] == '\n' then None
    else if LinkTextEnd(s, e) && LazyGroupEnd(s, ")", e + 2, e + 3).Some? then
      Some((e, LazyGroupEnd(s, ")", e + 2, e + 3).value + 1))
    else LinkFrom(s, i, e + 1)
  }

  /**
   * A link found from `e` is `](` at the end of its text, then a
   * non-empty target, then `)` just before its end.
   */
  lemma {:induction false} LinkFromShape(s: string, i: nat, e: nat)
    requires i + 1 < e
    ensures var r := LinkFrom(s, i, e);
      r.Some? ==> && e <= r.value.0 && r.value.0 + 4 <= r.value.1 <= |s|
                  && LinkTextEnd(s, r.value.0) && s[r.value.1 - 1] == ')'
    decreases |s| + 1 - e
  {
    if e <= |s| && s[e - 1] != '\n' {
      if LinkTextEnd(s, e) && LazyGroupEnd(s, ")", e + 2, e + 3).Some? {
        LinkFromShapeFound(s, i, e);
      } else {
        LinkFromGoesOn(s, i, e, e + 1);
        LinkFromShape(s, i, e + 1);
      }
    }
  }

  /** The shape of a link found at `e`. */
  lemma LinkFromShapeFound(s: string, i: nat, e: nat)
    requires i + 1 < e <= |s| && s[e - 1] != '\n'
    requires LinkTextEnd(s, e) && LazyGroupEnd(s, ")", e + 2, e + 3).Some?
    ensures LinkFrom(s, i, e) == Some((e, LazyGroupEnd(s, ")", e + 2, e + 3).value + 1))
    ensures s[LazyGroupEnd(s, ")", e + 2, e + 3).value] == ')'
  {
    LinkFromFound(s, i, e);
    CloseAt(s, LazyGroupEnd(s, ")", e + 2, e + 3).value);
  }

  /** `)` occurs at `m` when it is the character there. */
  lemma CloseAt(s: string, m: nat)
    requires OccursAt(s, ")", m)
    ensures m < |s| && s[m] == ')'
  {
    assert s[m..m + 1][0] == s[m];
  }

  /** `re.sub(r"\[(.+?)\]\(.+?\)", r"\1", s[i..])`: every link is replaced by its text. */
  function SubLinks(s: string, i: nat): string
    decreases |s| - i
  {
    if i >= |s| then ""
    else if s[i] == '[' && LinkFrom(s, i, i + 2).Some? then
      var link := LinkFrom(s, i, i + 2).value;
      s[i + 1..link.0] + SubLinks(s, link.1)
    else [s[i]] + SubLinks(s, i + 1)
  }

  /** The lazy group ends at `m` when the one-character `close` first occurs there and no line feed comes before it. */
  lemma {:induction false} LazyGroupEndAt(s: string, close: string, start: nat, e: nat, m: nat)
    requires start < e <= m < |s| && |close| == 1
    requires forall k :: e - 1 <= k < m ==> s[k] != '\n' && s[k] != close[0]
    requires s[m] == close[0]
    ensures LazyGroupEnd(s, close, start, e) == Some(m)
    decreases m - e
  {
    if e < m {
      NotAt(s, close, e);
      LazyGroupEndAt(s, close, start, e + 1, m);
    } else {
      assert s[m..m + 1] == close;
    }
  }

  /**
   * The link text ends at `m` when `](` is there, no line feed and no `]`
   * comes before it, and a target follows.
   */
  lemma {:induction false} LinkFromAt(s: string, i: nat, e: nat, m: nat)
    requires i + 1 < e <= m <= |s|
    requires forall k :: e - 1 <= k < m ==> s[k] != '\n' && s[k] != ']'
    requires LinkTextEnd(s, m) && LazyGroupEnd(s, ")", m + 2, m + 3).Some?
    ensures LinkFrom(s, i, e) == Some((m, LazyGroupEnd(s, ")", m + 2, m + 3).value + 1))
    decreases m - e
  {
    if e < m {
      LinkFromGoesOn(s, i, e, e + 1);
      LinkFromAt(s, i, e + 1, m);
    } else {
      LinkFromFound(s, i, e);
    }
  }

  /** A delimiter does not occur where a character other than its first stands. */
  lemma NotAt(s: string, sep: string, k: nat)
    requires sep != [] && k < |s| && s[k] != sep[0]
    ensures !OccursAt(s, sep, k)
  {
    if k + |sep| <= |s| {
      assert s[k..k + |sep|][0] == s[k];
    }
  }

  // ---------------------------------------------------------------------------
  // the substitutions do not look behind the position they start from
  // ---------------------------------------------------------------------------

  /** `s` is the text `q` from position `n` on. */
  predicate TailAt(q: string, n: nat, s: string) {
    && n + |s| == |q|
    && forall k :: 0 <= k < |s| ==> q[n + k] == s[k]
  }

  /** Text in front of `s` makes `s` the tail of the whole. */
  lemma TailOfConcat(p: string, s: string)
    ensures TailAt(p + s, |p|, s)
  {
  }

  /** A part of the tail is the same part of the whole, moved by `n`. */
  lemma SliceOfTail(q: string, n: nat, s: string, j: nat, k: nat)
    requires TailAt(q, n, s) && j <= k <= |s|
    ensures q[n + j..n + k] == s[j..k]
  {
    assert forall t :: 0 <= t < k - j ==> q[n + j..n + k][t] == q[n + (j + t)] && s[j..k][t] == s[j + t];
  }

  /** A delimiter occurs in the tail where it occurs in the whole, moved by `n`. */
  lemma OccursAtShift(q: string, n: nat, s: string, sep: string, k: nat)
    requires TailAt(q, n, s)
    ensures OccursAt(q, sep, n + k) <==> OccursAt(s, sep, k)
  {
    if k + |sep| <= |s| {
      SliceOfTail(q, n, s, k, k + |sep|);
      assert n + k + |sep| == n + (k + |sep|);
    }
  }

  /** A link text ends in the tail where it ends in the whole, moved by `n`. */
  lemma LinkTextEndShift(q: string, n: nat, s: string, e: nat)
    requires TailAt(q, n, s)
    ensures LinkTextEnd(q, n + e) <==> LinkTextEnd(s, e)
  {
    if e + 1 < |s| {
      assert q[n + e] == s[e] && q[n + (e + 1)] == s[e + 1];
      assert n + (e + 1) == n + e + 1;
    }
  }

  /** A position moved right by `n`, if there is one. */
  function Shifted(n: nat, r: Option<nat>): Option<nat> {
    if r.Some? then Some(n + r.value) else None
  }

  /** The lazy group does not look behind its start: text in front only shifts its end. */
  lemma {:induction false} LazyGroupEndShift(q: string, n: nat, s: string, close: string, start: nat, e: nat)
    requires TailAt(q, n, s) && start < e
    ensures LazyGroupEnd(q, close, n + start, n + e) == Shifted(n, LazyGroupEnd(s, close, start, e))
    decreases |s| + 1 - e
  {
    if e > |s| || s[e - 1] == '\n' {
      LazyGroupEndShiftStops(q, n, s, close, start, e);
    } else {
      LazyGroupEndShift(q, n, s, close, start, e + 1);
      LazyGroupEndShiftStep(q, n, s, close, start, e);
    }
  }

  /** The shift of a lazy group search that ends at `e` without a group. */
  lemma LazyGroupEndShiftStops(q: string, n: nat, s: string, close: string, start: nat, e: nat)
    requires TailAt(q, n, s) && start < e && (e > |s| || s[e - 1] == '\n')
    ensures LazyGroupEnd(q, close, n + start, n + e) == Shifted(n, LazyGroupEnd(s, close, start, e))
  {
    if e <= |s| {
      assert q[n + (e - 1)] == s[e - 1];
    }
  }

  /** The shift of one step of a lazy group search, given the shift from `e + 1`. */
  lemma LazyGroupEndShiftStep(q: string, n: nat, s: string, close: string, start: nat, e: nat)
    requires TailAt(q, n, s) && start < e <= |s| && s[e - 1] != '\n'
    requires LazyGroupEnd(q, close, n + start, n + (e + 1)) == Shifted(n, LazyGroupEnd(s, close, start, e + 1))
    ensures LazyGroupEnd(q, close, n + start, n + e) == Shifted(n, LazyGroupEnd(s, close, start, e))
  {
    assert q[n + (e - 1)] == s[e - 1];
    OccursAtShift(q, n, s, close, e);
    LazyGroupEndStep(q, close, n + start, n + e, n + (e + 1));
    LazyGroupEndStep(s, close, start, e, e + 1);
  }

  /** One step of the lazy group's search, which goes on at `e1`. */
  lemma LazyGroupEndStep(s: string, close: string, start: nat, e: nat, e1: nat)
    requires start < e <= |s| && s[e - 1] != '\n' && e1 == e + 1
    ensures LazyGroupEnd(s, close, start, e) == if OccursAt(s, close, e) then Some(e) else LazyGroupEnd(s, close, start, e1)
  {
  }

  /** The target after a link text that ends at `e` is found the same way in the whole. */
  lemma LinkTargetShift(q: string, n: nat, s: string, e: nat)
    requires TailAt(q, n, s)
    ensures LazyGroupEnd(q, ")", n + e + 2, n + e + 3) == Shifted(n, LazyGroupEnd(s, ")", e + 2, e + 3))
  {
    LazyGroupEndShift(q, n, s, ")", e + 2, e + 3);
    assert n + e + 2 == n + (e + 2) && n + e + 3 == n + (e + 3);
  }

  /** A link's positions moved right by `n`, if there is a link. */
  function ShiftedLink(n: nat, r: Option<(nat, nat)>): Option<(nat, nat)> {
    if r.Some? then Some((n + r.value.0, n + r.value.1)) else None
  }

  /** A link does not look behind its `[`: text in front only shifts its positions. */
  lemma {:induction false} LinkFromShift(q: string, n: nat, s: string, i: nat, e: nat)
    requires TailAt(q, n, s) && i + 1 < e
    ensures LinkFrom(q, n + i, n + e) == ShiftedLink(n, LinkFrom(s, i, e))
    decreases |s| + 1 - e
  {
    if e > |s| || s[e - 1] == '\n' {
      LinkFromShiftStops(q, n, s, i, e);
    } else {
      LinkFromShift(q, n, s, i, e + 1);
      LinkFromShiftStep(q, n, s, i, e);
    }
  }

  /** The shift of a link search that ends at `e` without a link. */
  lemma LinkFromShiftStops(q: string, n: nat, s: string, i: nat, e: nat)
    requires TailAt(q, n, s) && i + 1 < e && (e > |s| || s[e - 1] == '\n')
    ensures LinkFrom(q, n + i, n + e) == ShiftedLink(n, LinkFrom(s, i, e))
  {
    if e <= |s| {
      assert q[n + (e - 1)] == s[e - 1];
    }
  }

  /** The shift of one step of a link search, given the shift from `e + 1`. */
  lemma LinkFromShiftStep(q: string, n: nat, s: string, i: nat, e: nat)
    requires TailAt(q, n, s) && i + 1 < e <= |s| && s[e - 1] != '\n'
    requires LinkFrom(q, n + i, n + (e + 1)) == ShiftedLink(n, LinkFrom(s, i, e + 1))
    ensures LinkFrom(q, n + i, n + e) == ShiftedLink(n, LinkFrom(s, i, e))
  {
    if LinkTextEnd(s, e) && LazyGroupEnd(s, ")", e + 2, e + 3).Some? {
      LinkFromShiftFound(q, n, s, i, e);
    } else {
      LinkFromShiftGoesOn(q, n, s, i, e);
    }
  }

  /** The shift of a link search that stops at `e` with a link. */
  lemma LinkFromShiftFound(q: string, n: nat, s: string, i: nat, e: nat)
    requires TailAt(q, n, s) && i + 1 < e <= |s| && s[e - 1] != '\n'
    requires LinkTextEnd(s, e) && LazyGroupEnd(s, ")", e + 2, e + 3).Some?
    ensures LinkFrom(q, n + i, n + e) == ShiftedLink(n, LinkFrom(s, i, e))
  {
    assert q[n + (e - 1)] == s[e - 1];
    LinkTextEndShift(q, n, s, e);
    LinkTargetShift(q, n, s, e);
    LinkFromFound(q, n + i, n + e);
    LinkFromFound(s, i, e);
  }

  /** The shift of a link search that goes on past `e`, given the shift from `e + 1`. */
  lemma LinkFromShiftGoesOn(q: string, n: nat, s: string, i: nat, e: nat)
    requires TailAt(q, n, s) && i + 1 < e <= |s| && s[e - 1] != '\n'
    requires !(LinkTextEnd(s, e) && LazyGroupEnd(s, ")", e + 2, e + 3).Some?)
    requires LinkFrom(q, n + i, n + (e + 1)) == ShiftedLink(n, LinkFrom(s, i, e + 1))
    ensures LinkFrom(q, n + i, n + e) == ShiftedLink(n, LinkFrom(s, i, e))
  {
    assert q[n + (e - 1)] == s[e - 1];
    LinkTextEndShift(q, n, s, e);
    LinkTargetShift(q, n, s, e);
    LinkFromGoesOn(q, n + i, n + e, n + (e + 1));
    LinkFromGoesOn(s, i, e, e + 1);
  }

  /** The link search stops with a link at `e` when `](` and a target follow there. */
  lemma LinkFromFound(s: string, i: nat, e: nat)
    requires i + 1 < e <= |s| && s[e - 1] != '\n'
    requires LinkTextEnd(s, e) && LazyGroupEnd(s, ")", e + 2, e + 3).Some?
    ensures LinkFrom(s, i, e) == Some((e, LazyGroupEnd(s, ")", e + 2, e + 3).value + 1))
  {
  }

  /** The link search goes on to the next end `e1` when no link text ends at `e`. */
  lemma LinkFromGoesOn(s: string, i: nat, e: nat, e1: nat)
    requires i + 1 < e <= |s| && s[e - 1] != '\n' && e1 == e + 1
    requires !(LinkTextEnd(s, e) && LazyGroupEnd(s, ")", e + 2, e + 3).Some?)
    ensures LinkFrom(s, i, e) == LinkFrom(s, i, e1)
  {
  }

  /** A link that starts at `i` is found the same way in the whole. */
  lemma LinkStartShift(q: string, n: nat, s: string, i: nat)
    requires TailAt(q, n, s)
    ensures LinkFrom(q, n + i, n + i + 2) == ShiftedLink(n, LinkFrom(s, i, i + 2))
  {
    LinkFromShift(q, n, s, i, i + 2);
    assert n + i + 2 == n + (i + 2);
  }

  /** The link substitution from a position does not depend on the text before it. */
  lemma {:induction false} SubLinksShift(q: string, n: nat, s: string, i: nat)
    requires TailAt(q, n, s)
    ensures SubLinks(q, n + i) == SubLinks(s, i)
    decreases |s| - i
  {
    if i < |s| {
      if s[i] == '[' && LinkFrom(s, i, i + 2).Some? {
        var link := LinkFrom(s, i, i + 2).value;
        SubLinksShift(q, n, s, link.1);
        SubLinksShiftAtLink(q, n, s, i, link.0, link.1);
      } else {
        SubLinksShift(q, n, s, i + 1);
        SubLinksShiftNoLink(q, n, s, i);
      }
    } else {
      assert n + i >= |q|;
    }
  }

  /** The shift of one step of the link substitution where a link `(j, k)` starts, given the shift after it. */
  lemma SubLinksShiftAtLink(q: string, n: nat, s: string, i: nat, j: nat, k: nat)
    requires TailAt(q, n, s) && i < |s| && s[i] == '[' && LinkFrom(s, i, i + 2) == Some((j, k))
    requires SubLinks(q, n + k) == SubLinks(s, k)
    ensures SubLinks(q, n + i) == SubLinks(s, i)
  {
    assert q[n + i] == s[i];
    LinkStartShift(q, n, s, i);
    SubLinksAtLink(q, n + i, n + j, n + k);
    SubLinksAtLink(s, i, j, k);
    SliceOfTail(q, n, s, i + 1, j);
    assert n + i + 1 == n + (i + 1);
  }

  /** The shift of one step of the link substitution where no link starts, given the shift after it. */
  lemma SubLinksShiftNoLink(q: string, n: nat, s: string, i: nat)
    requires TailAt(q, n, s) && i < |s| && !(s[i] == '[' && LinkFrom(s, i, i + 2).Some?)
    requires SubLinks(q, n + (i + 1)) == SubLinks(s, i + 1)
    ensures SubLinks(q, n + i) == SubLinks(s, i)
  {
    assert q[n + i] == s[i];
    LinkStartShift(q, n, s, i);
    SubLinksNoLink(s, i, i + 1);
    SubLinksNoLink(q, n + i, n + (i + 1));
  }

  /** One step of the link substitution where no link starts. */
  lemma SubLinksNoLink(s: string, i: nat, i1: nat)
    requires i < |s| && (s[i] != '[' || LinkFrom(s, i, i + 2).None?) && i1 == i + 1
    ensures SubLinks(s, i) == [s[i]] + SubLinks(s, i1)
  {
  }

  /** One step of the link substitution where a link starts. */
  lemma SubLinksAtLink(s: string, i: nat, j: nat, k: nat)
    requires i < |s| && s[i] == '[' && LinkFrom(s, i, i + 2) == Some((j, k))
    ensures SubLinks(s, i) == s[i + 1..j] + SubLinks(s, k)
  {
  }

  /** Text without `[` passes through the link substitution unchanged. */
  lemma {:induction false} SubLinksPlainPrefix(s: string, j: nat, n: nat)
    requires j <= n <= |s|
    requires forall k :: j <= k < n ==> s[k] != '['
    ensures SubLinks(s, j) == s[j..n] + SubLinks(s, n)
    decreases n - j
  {
    if j < n {
      SubLinksNoLink(s, j, j + 1);
      SubLinksPlainPrefix(s, j + 1, n);
      assert s[j..n] == [s[j]] + s[j + 1..n];
      Regrouped(SubLinks(s, j), SubLinks(s, j + 1), [s[j]], s[j + 1..n], SubLinks(s, n));
    }
  }

  /**
   * A link `[t](u)` after text without `[` is replaced by its text `t`,
   * and the substitution goes on after the `)`; the text and the target
   * are non-empty and on one line, the text holds no `]` and the target
   * no `)`.
   */
  lemma LinkReplacedByText(a: string, t: string, u: string, b: string)
    requires '[' !in a
    requires t != [] && ']' !in t && '\n' !in t
    requires u != [] && ')' !in u && '\n' !in u
    ensures SubLinks(a + "[" + t + "](" + u + ")" + b, 0) == a + t + SubLinks(b, 0)
  {
    var p := a + "[" + t + "](" + u + ")";
    var s := p + b;
    var i, e := |a|, |a| + 1 + |t|;
    var m := e + 2 + |u|;
    LinkCharacters(a, t, u, b);
    LinkReplacedAt(s, i, e, m);
    TailOfConcat(p, b);
    SubLinksOfTail(s, |p|, b, m + 1);
    SameParts(SubLinks(s, 0), s[0..i], s[i + 1..e], SubLinks(s, m + 1), a, t, SubLinks(b, 0));
  }

  /** The link substitution from where the tail starts is that of the tail. */
  lemma SubLinksOfTail(q: string, n: nat, s: string, k: nat)
    requires TailAt(q, n, s) && k == n
    ensures SubLinks(q, k) == SubLinks(s, 0)
  {
    SubLinksShift(q, n, s, 0);
    assert n + 0 == k;
  }

  /** A text made of three parts equals the text made of three equal parts. */
  lemma SameParts(x: string, c1: string, c2: string, c3: string, d1: string, d2: string, d3: string)
    requires x == c1 + c2 + c3
    requires c1 == d1 && c2 == d2 && c3 == d3
    ensures x == d1 + d2 + d3
  {
  }

  /**
   * The link substitution on a text whose first `[` is at `i`, whose link
   * text ends at `e` and whose target's `)` is at `m`.
   */
  lemma LinkReplacedAt(s: string, i: nat, e: nat, m: nat)
    requires i + 2 <= e && e + 3 <= m < |s|
    requires forall k :: 0 <= k < i ==> s[k] != '['
    requires s[i] == '['
    requires forall k :: i + 1 <= k < e ==> s[k] != '\n' && s[k] != ']'
    requires LinkTextEnd(s, e)
    requires forall k :: e + 2 <= k < m ==> s[k] != '\n' && s[k] != ')'
    requires s[m] == ')'
    ensures SubLinks(s, 0) == s[0..i] + s[i + 1..e] + SubLinks(s, m + 1)
  {
    LinkReplacedFrom(s, i, e, m);
    SubLinksPlainPrefix(s, 0, i);
    Regrouped(SubLinks(s, 0), SubLinks(s, i), s[0..i], s[i + 1..e], SubLinks(s, m + 1));
  }

  /** From its `[` on, a link whose text ends at `e` and whose `)` is at `m` becomes its text. */
  lemma LinkReplacedFrom(s: string, i: nat, e: nat, m: nat)
    requires i + 2 <= e && e + 3 <= m < |s|
    requires s[i] == '['
    requires forall k :: i + 1 <= k < e ==> s[k] != '\n' && s[k] != ']'
    requires LinkTextEnd(s, e)
    requires forall k :: e + 2 <= k < m ==> s[k] != '\n' && s[k] != ')'
    requires s[m] == ')'
    ensures SubLinks(s, i) == s[i + 1..e] + SubLinks(s, m + 1)
  {
    LinkSpans(s, i, e, m);
    SubLinksAtLink(s, i, e, m + 1);
  }

  /** A text that is `a` then a text that is `b` then `t` is `a + b` then `t`. */
  lemma Regrouped(x: string, y: string, a: string, b: string, t: string)
    requires x == a + y && y == b + t
    ensures x == (a + b) + t
  {
  }

  /** The link that starts at `i` has its text end at `e` and its `)` at `m`. */
  lemma LinkSpans(s: string, i: nat, e: nat, m: nat)
    requires i + 2 <= e && e + 3 <= m < |s|
    requires forall k :: i + 1 <= k < e ==> s[k] != '\n' && s[k] != ']'
    requires LinkTextEnd(s, e)
    requires forall k :: e + 2 <= k < m ==> s[k] != '\n' && s[k] != ')'
    requires s[m] == ')'
    ensures LinkFrom(s, i, i + 2) == Some((e, m + 1))
  {
    assert ")"[0] == ')';
    LazyGroupEndAt(s, ")", e + 2, e + 3, m);
    LinkFromAt(s, i, i + 2, e);
  }

  /** Where the parts of `a[t](u)b` stand. */
  lemma LinkCharacters(a: string, t: string, u: string, b: string)
    requires '[' !in a
    requires t != [] && ']' !in t && '\n' !in t
    requires u != [] && ')' !in u && '\n' !in u
    ensures var s := a + "[" + t + "](" + u + ")" + b;
      var i, e := |a|, |a| + 1 + |t|;
      var m := e + 2 + |u|;
      && m + 1 == |a + "[" + t + "](" + u + ")"| && s == (a + "[" + t + "](" + u + ")") + b
      && s[0..i] == a && s[i] == '[' && s[i + 1..e] == t
      && (forall k :: 0 <= k < i ==> s[k] != '[')
      && (forall k :: i + 1 <= k < e ==> s[k] != '\n' && s[k] != ']')
      && LinkTextEnd(s, e)
      && (forall k :: e + 2 <= k < m ==> s[k] != '\n' && s[k] != ')')
      && s[m] == ')'
  {
    var s := a + "[" + t + "](" + u + ")" + b;
    var i, e := |a|, |a| + 1 + |t|;
    var m := e + 2 + |u|;
    assert forall k :: 0 <= k < i ==> s[k] == a[k];
    assert forall k :: i + 1 <= k < e ==> s[k] == t[k - i - 1];
    assert forall k :: e + 2 <= k < m ==> s[k] == u[k - e - 2];
  }

  /** `_strip_markdown`: bold, then italics, then code, then links. */
  function StripMarkdown(text: string): string {
    var noBold := SubSpans(text, "**", "**", 0);
    var noItalic := SubSpans(noBold, "*", "*", 0);
    var noCode := SubSpans(noItalic, "`", "`", 0);
    SubLinks(noCode, 0)
  }

  /** Stripping markdown only ever removes characters. */
  lemma StripMarkdownShorter(text: string)
    ensures |StripMarkdown(text)| <= |text|
  {
    var noBold := SubSpans(text, "**", "**", 0);
    var noItalic := SubSpans(noBold, "*", "*", 0);
    var noCode := SubSpans(noItalic, "`", "`", 0);
    SubSpansShorter(text, "**", "**", 0);
    SubSpansShorter(noBold, "*", "*", 0);
    SubSpansShorter(noItalic, "`", "`", 0);
    SubLinksShorter(noCode, 0);
  }

  /** A span substitution is never longer than the text it scans: a span loses its delimiters. */
  lemma {:induction false} SubSpansShorter(s: string, open: string, close: string, i: nat)
    ensures |SubSpans(s, open, close, i)| <= |From(s, i)|
    decreases |s| - i
  {
    if i < |s| {
      var span := SpanAt(s, open, close, i);
      if span.Some? {
        var e := span.value;
        SubSpansAtSpan(s, open, close, i, e);
        SubSpansShorter(s, open, close, e + |close|);
        assert |s[i + |open|..e]| + |From(s, e + |close|)| <= |From(s, i)|;
      } else {
        SubSpansNoSpan(s, open, close, i);
        SubSpansShorter(s, open, close, i + 1);
      }
    }
  }

  /** The link substitution is shorter by at least four characters per link: `[`, `](`, the address and `)` go. */
  lemma {:induction false} SubLinksShorter(s: string, i: nat)
    ensures |SubLinks(s, i)| <= |From(s, i)|
    decreases |s| - i
  {
    if i < |s| {
      if s[i] == '[' && LinkFrom(s, i, i + 2).Some? {
        SubLinksShorter(s, LinkFrom(s, i, i + 2).value.1);
      } else {
        SubLinksShorter(s, i + 1);
      }
    }
  }

  /** A span substitution whose opening character does not occur leaves the text as it is. */
  lemma {:induction false} SubSpansAbsent(s: string, open: string, close: string, i: nat)
    requires open != [] && open[0] !in s
    ensures SubSpans(s, open, close, i) == if i < |s| then s[i..] else ""
    decreases |s| - i
  {
    if i < |s| {
      assert !OccursAt(s, open, i) by {
        assert s[i] != open[0];
      }
      SubSpansAbsent(s, open, close, i + 1);
      assert s[i..] == [s[i]] + (if i + 1 < |s| then s[i + 1..] else "");
    }
  }

  /** Without `[` the link substitution leaves the text as it is. */
  lemma {:induction false} SubLinksAbsent(s: string, i: nat)
    requires '[' !in s
    ensures SubLinks(s, i) == if i < |s| then s[i..] else ""
    decreases |s| - i
  {
    if i < |s| {
      SubLinksAbsent(s, i + 1);
      assert s[i..] == [s[i]] + (if i + 1 < |s| then s[i + 1..] else "");
    }
  }

  /** Text with no `*`, no backtick and no `[` has no markdown to strip. */
  lemma PlainTextUnchanged(text: string)
    requires '*' !in text && '`' !in text && '[' !in text
    ensures StripMarkdown(text) == text
  {
    SubSpansAbsent(text, "**", "**", 0);
    SubSpansAbsent(text, "*", "*", 0);
    SubSpansAbsent(text, "`", "`", 0);
    SubLinksAbsent(text, 0);
  }

  /** Bold markup around a word is replaced by the word. */
  lemma BoldExample()
    ensures StripMarkdown("**a**") == "a"
  {
    assert OccursAt("**a**", "**", 0);
    assert OccursAt("**a**", "**", 3);
    assert "**a**"[2..4][0] == 'a';
    assert SpanAt("**a**", "**", "**", 0) == Some(3);
    assert SubSpans("**a**", "**", "**", 0) == "a";
    assert "a"[0..1][0] == 'a';
    assert SubSpans("a", "*", "*", 0) == "a";
    assert SubSpans("a", "`", "`", 0) == "a";
  }

  /** The link in `[a](u)` has its text end at 2 and ends at 6. */
  lemma LinkFound()
    ensures LinkFrom("[a](u)", 0, 2) == Some((2, 6))
  {
    var s := "[a](u)";
    assert LinkTextEnd(s, 2);
    assert LazyGroupEnd(s, ")", 4, 5) == Some(5) by {
      assert OccursAt(s, ")", 5);
    }
  }

  /** A link is replaced by its text. */
  lemma LinkExample()
    ensures StripMarkdown("[a](u)") == "a"
  {
    var s := "[a](u)";
    SubSpansAbsent(s, "**", "**", 0);
    SubSpansAbsent(s, "*", "*", 0);
    SubSpansAbsent(s, "`", "`", 0);
    LinkTextKept();
  }

  /** The link substitution keeps the text `a` of the link `[a](u)`. */
  lemma LinkTextKept()
    ensures SubLinks("[a](u)", 0) == "a"
  {
    var s := "[a](u)";
    LinkFound();
    assert SubLinks(s, 0) == s[1..2] + SubLinks(s, 6);
  }

  /** The characters of `s` other than `c`, in order. */
  function Without(s: string, c: char): (r: string)
    ensures |r| <= |s|
  {
    if s == [] then [] else (if s[0] == c then [] else [s[0]]) + Without(s[1..], c)
  }

  lemma {:induction false} WithoutAppend(a: string, b: string, c: char)
    ensures Without(a + b, c) == Without(a, c) + Without(b, c)
  {
    if a == [] {
      assert a + b == b;
    } else {
      assert (a + b)[0] == a[0];
      assert (a + b)[1..] == a[1..] + b;
      WithoutAppend(a[1..], b, c);
    }
  }

  /** A delimiter made of `c` alone disappears when `c` is removed. */
  lemma {:induction false} WithoutOnly(d: string, c: char)
    requires forall k :: 0 <= k < |d| ==> d[k] == c
    ensures Without(d, c) == []
  {
    if d != [] {
      WithoutOnly(d[1..], c);
    }
  }

  /** The rest of the text from `i` on, `""` past its end. */
  function From(s: string, i: nat): string {
    if i < |s| then s[i..] else ""
  }

  /** An opening at `i` and a closing at `e` cut the text from `i` into the opening, the group, the closing and the rest. */
  lemma SpanPieces(s: string, open: string, close: string, i: nat, e: nat)
    requires OccursAt(s, open, i) && i + |open| <= e && OccursAt(s, close, e)
    ensures From(s, i) == open + s[i + |open|..e] + close + From(s, e + |close|)
  {
    var rest := From(s, e + |close|);
    assert s[e..] == s[e..e + |close|] + rest;
    assert s[i + |open|..] == s[i + |open|..e] + s[e..];
    assert s[i..] == s[i..i + |open|] + s[i + |open|..];
  }

  lemma WithoutFour(a: string, b: string, d: string, t: string, c: char)
    ensures Without(a + b + d + t, c) == Without(a, c) + Without(b, c) + Without(d, c) + Without(t, c)
  {
    WithoutAppend(a + b + d, t, c);
    WithoutAppend(a + b, d, c);
    WithoutAppend(a, b, c);
  }

  /** Replacing a span made of delimiters `c` by its group keeps the text other than `c`. */
  lemma DropDelimiters(open: string, group: string, close: string, out: string, rest: string, c: char)
    requires Without(open, c) == [] && Without(close, c) == []
    requires Without(out, c) == Without(rest, c)
    ensures Without(group + out, c) == Without(open + group + close + rest, c)
  {
    var g, r := Without(group, c), Without(rest, c);
    calc {
      Without(open + group + close + rest, c);
      == { WithoutFour(open, group, close, rest, c); }
      [] + g + [] + r;
      == { assert [] + g == g && g + [] == g; }
      g + r;
      == { WithoutAppend(group, out, c); }
      Without(group + out, c);
    }
  }

  /** A character in front of two texts with the same characters other than `c` keeps them so. */
  lemma KeepChar(x: char, out: string, rest: string, c: char)
    requires Without(out, c) == Without(rest, c)
    ensures Without([x] + out, c) == Without([x] + rest, c)
  {
    WithoutAppend([x], out, c);
    WithoutAppend([x], rest, c);
  }

  /** One step of the span substitution where a span starts. */
  lemma SubSpansAtSpan(s: string, open: string, close: string, i: nat, e: nat)
    requires i < |s| && SpanAt(s, open, close, i) == Some(e)
    ensures SubSpans(s, open, close, i) == s[i + |open|..e] + SubSpans(s, open, close, e + |close|)
  {
  }

  /** One step of the span substitution where no span starts. */
  lemma SubSpansNoSpan(s: string, open: string, close: string, i: nat)
    requires i < |s| && SpanAt(s, open, close, i).None?
    ensures SubSpans(s, open, close, i) == [s[i]] + SubSpans(s, open, close, i + 1)
  {
  }

  /** The step of `SubSpansKeepsText` where a span starts at `i`. */
  lemma KeepsTextAtSpan(s: string, open: string, close: string, c: char, i: nat, e: nat)
    requires Without(open, c) == [] && Without(close, c) == []
    requires i < |s| && SpanAt(s, open, close, i) == Some(e)
    requires Without(SubSpans(s, open, close, e + |close|), c) == Without(From(s, e + |close|), c)
    ensures Without(SubSpans(s, open, close, i), c) == Without(From(s, i), c)
  {
    var group := s[i + |open|..e];
    var out, rest := SubSpans(s, open, close, e + |close|), From(s, e + |close|);
    SubSpansAtSpan(s, open, close, i, e);
    SpanPieces(s, open, close, i, e);
    DropDelimiters(open, group, close, out, rest, c);
    assert SubSpans(s, open, close, i) == group + out && From(s, i) == open + group + close + rest;
  }

  /** The step of `SubSpansKeepsText` where no span starts at `i`. */
  lemma KeepsTextNoSpan(s: string, open: string, close: string, c: char, i: nat)
    requires i < |s| && SpanAt(s, open, close, i).None?
    requires Without(SubSpans(s, open, close, i + 1), c) == Without(From(s, i + 1), c)
    ensures Without(SubSpans(s, open, close, i), c) == Without(From(s, i), c)
  {
    var out, rest := SubSpans(s, open, close, i + 1), From(s, i + 1);
    SubSpansNoSpan(s, open, close, i);
    assert From(s, i) == [s[i]] + rest;
    KeepChar(s[i], out, rest, c);
    assert SubSpans(s, open, close, i) == [s[i]] + out;
  }

  /**
   * A span substitution whose delimiters are made of `c` only removes
   * delimiter characters: every other character survives, in order.
   */
  lemma {:induction false} SubSpansKeepsText(s: string, open: string, close: string, c: char, i: nat)
    requires Without(open, c) == [] && Without(close, c) == []
    ensures Without(SubSpans(s, open, close, i), c) == Without(From(s, i), c)
    decreases |s| - i
  {
    if i < |s| {
      var span := SpanAt(s, open, close, i);
      if span.Some? {
        SubSpansKeepsText(s, open, close, c, span.value + |close|);
        KeepsTextAtSpan(s, open, close, c, i, span.value);
      } else {
        SubSpansKeepsText(s, open, close, c, i + 1);
        KeepsTextNoSpan(s, open, close, c, i);
      }
    }
  }

  /** The whole text is the text from 0 on. */
  lemma FromStart(s: string)
    ensures From(s, 0) == s
  {
  }

  /**
   * The bold and italic passes of `_strip_markdown` remove asterisks and
   * nothing else, and the code pass removes backticks and nothing else.
   */
  lemma MarkupPassesKeepText(text: string)
    ensures var noBold := SubSpans(text, "**", "**", 0);
      Without(SubSpans(noBold, "*", "*", 0), '*') == Without(text, '*')
    ensures Without(SubSpans(text, "`", "`", 0), '`') == Without(text, '`')
  {
    var noBold := SubSpans(text, "**", "**", 0);
    WithoutOnly("**", '*');
    WithoutOnly("*", '*');
    WithoutOnly("`", '`');
    SubSpansKeepsText(text, "**", "**", '*', 0);
    SubSpansKeepsText(noBold, "*", "*", '*', 0);
    SubSpansKeepsText(text, "`", "`", '`', 0);
    FromStart(text);
    FromStart(noBold);
  }

  // ---------------------------------------------------------------------------
  // card texts
  // ---------------------------------------------------------------------------

  /**
   * `_format_question` and `_format_answer_text`: markdown stripped, the
   * words joined by single spaces, tabs replaced by spaces.  The result is
   * one line without tabs, ends trimmed, no double spaces, and holds the
   * words of the stripped text.
   */
  function FormatCardText(text: string): (r: string)
    ensures SingleSpaced(r) && '\t' !in r && '\n' !in r
    ensures Words(r) == Words(StripMarkdown(text))
  {
    var joined := CollapseSpaces(StripMarkdown(text));
    CollapseIsSingleSpaced(StripMarkdown(text));
    CollapseKeepsWords(StripMarkdown(text));
    assert forall i :: 0 <= i < |joined| ==> joined[i] != '\n' && joined[i] != '\t';
    ReplaceAbsent(joined, '\t', ' ');
    ReplaceChar(joined, '\t', ' ')
  }

  /** Plain text formats to its words, one space apart. */
  lemma PlainTextFormatsToItself(text: string)
    requires '*' !in text && '`' !in text && '[' !in text
    ensures FormatCardText(text) == CollapseSpaces(text)
    ensures SingleSpaced(text) ==> FormatCardText(text) == text
  {
    PlainTextUnchanged(text);
    var joined := CollapseSpaces(text);
    CollapseIsSingleSpaced(text);
    assert forall i :: 0 <= i < |joined| ==> joined[i] != '\t';
    ReplaceAbsent(joined, '\t', ' ');
    if SingleSpaced(text) {
      SingleSpacedIsCollapsed(text);
    }
  }

  /** A single-spaced text is its own collapse. */
  lemma SingleSpacedIsCollapsed(t: string)
    requires SingleSpaced(t)
    ensures CollapseSpaces(t) == t
  {
    SingleSpacedWords(t);
  }

  /** A single-spaced text is the join of its words with single spaces. */
  lemma {:induction false} SingleSpacedWords(t: string)
    requires SingleSpaced(t)
    ensures Join(Words(t), " ") == t
    decreases |t|
  {
    if t != [] {
      var e := WordEnd(t, 0);
      assert !IsSpace(t[0]);
      if e < |t| {
        var rest := t[e + 1..];
        SingleSpacedAfterSpace(t, e);
        SingleSpacedWords(rest);
        assert t[e..][1..] == rest;
        assert Words(t[e..]) == Words(rest);
        assert Words(t) == [t[..e]] + Words(rest);
        WordsOfSingleSpacedNonEmpty(rest);
        JoinCons(t[..e], Words(rest), " ");
        assert t == t[..e] + " " + rest;
      } else {
        assert Words(t[e..]) == [];
        assert Words(t) == [t[..e]];
        assert t[..e] == t;
      }
    }
  }

  /** After a space inside a single-spaced text comes a single-spaced text that starts with a word. */
  lemma SingleSpacedAfterSpace(t: string, e: nat)
    requires SingleSpaced(t) && e < |t| && IsSpace(t[e])
    ensures t[e] == ' ' && e + 1 < |t| && !IsSpace(t[e + 1])
    ensures SingleSpaced(t[e + 1..])
  {
    var rest := t[e + 1..];
    forall i | 0 <= i < |rest| && IsSpace(rest[i]) ensures rest[i] == ' ' {
      assert rest[i] == t[e + 1 + i];
    }
    forall i | 0 <= i < |rest| - 1 ensures !(IsSpace(rest[i]) && IsSpace(rest[i + 1])) {
      assert rest[i] == t[e + 1 + i] && rest[i + 1] == t[e + 2 + i];
    }
  }

  lemma WordsOfSingleSpacedNonEmpty(t: string)
    requires t != [] && !IsSpace(t[0])
    ensures Words(t) != []
  {
  }

  // ---------------------------------------------------------------------------
  // the card back
  // ---------------------------------------------------------------------------

  /** `[ans for ans in answers if ans.is_correct]`. */
  function CorrectAnswers(answers: seq<Answer>): (cs: seq<Answer>)
    ensures |cs| <= |answers|
    ensures forall a :: a in cs ==> a in answers && a.isCorrect
  {
    if answers == [] then []
    else (if answers[0].isCorrect then [answers[0]] else []) + CorrectAnswers(answers[1..])
  }

  /** Every correct answer is kept: the filter is empty only when no answer is correct. */
  lemma {:induction false} CorrectAnswersComplete(answers: seq<Answer>, k: nat)
    requires k < |answers| && answers[k].isCorrect
    ensures answers[k] in CorrectAnswers(answers)
  {
    if k > 0 {
      assert answers[1..][k - 1] == answers[k];
      CorrectAnswersComplete(answers[1..], k - 1);
    }
  }

  /** The answers at the listed indices. */
  function AnswersAt(answers: seq<Answer>, ks: seq<nat>): (r: seq<Answer>)
    requires forall j :: 0 <= j < |ks| ==> ks[j] < |answers|
    ensures |r| == |ks| && forall j :: 0 <= j < |ks| ==> r[j] == answers[ks[j]]
  {
    seq(|ks|, j requires 0 <= j < |ks| => answers[ks[j]])
  }

  /**
   * The filter keeps the correct answers, each once, in their original
   * order: the answers at the increasing indices of the correct ones.
   */
  lemma CorrectAnswersListed(answers: seq<Answer>, ks: seq<nat>)
    requires CorrectIndexList(answers, ks)
    ensures CorrectAnswers(answers) == AnswersAt(answers, ks)
  {
    assert answers[0..] == answers;
    CorrectAnswersFrom(answers, 0, ks);
  }

  /** From answer `i` on, the filter keeps the answers at the increasing indices `ks` of the correct ones. */
  lemma {:induction false} CorrectAnswersFrom(answers: seq<Answer>, i: nat, ks: seq<nat>)
    requires i <= |answers|
    requires forall j :: 0 <= j < |ks| ==> i <= ks[j] < |answers|
    requires forall j, l :: 0 <= j < l < |ks| ==> ks[j] < ks[l]
    requires forall k :: i <= k < |answers| ==> (answers[k].isCorrect <==> k in ks)
    ensures CorrectAnswers(answers[i..]) == AnswersAt(answers, ks)
    decreases |answers| - i
  {
    if i == |answers| {
      IndexListLength(ks, i, |answers|);
    } else {
      var rest := answers[i..];
      assert rest[0] == answers[i] && rest[1..] == answers[i + 1..];
      if answers[i].isCorrect {
        CorrectFirstListed(answers, i, ks);
        CorrectAnswersFrom(answers, i + 1, ks[1..]);
        AnswersAtCons(answers, ks);
      } else {
        assert forall j :: 0 <= j < |ks| ==> ks[j] != i;
        CorrectAnswersFrom(answers, i + 1, ks);
      }
    }
  }

  /** The answers at a non-empty index list: the one at its first index, then those at the rest. */
  lemma AnswersAtCons(answers: seq<Answer>, ks: seq<nat>)
    requires |ks| > 0 && forall j :: 0 <= j < |ks| ==> ks[j] < |answers|
    ensures AnswersAt(answers, ks) == [answers[ks[0]]] + AnswersAt(answers, ks[1..])
  {
  }

  /** The formatted texts of the correct answers, in answer order. */
  function CardTexts(cs: seq<Answer>): (ts: seq<string>)
    ensures |ts| == |cs|
    ensures forall j :: 0 <= j < |ts| ==> ts[j] == FormatCardText(cs[j].text)
  {
    if cs == [] then [] else [FormatCardText(cs[0].text)] + CardTexts(cs[1..])
  }

  /**
   * `_format_answer`: "No correct answer found" without a correct answer,
   * the one correct answer's text, or the texts of all correct answers
   * joined with "; ".
   */
  function FormatAnswer(q: Question): (r: string)
    ensures '\t' !in r && '\n' !in r
  {
    var cs := CorrectAnswers(q.answers);
    if cs == [] then NoCorrectAnswer
    else
      var texts := CardTexts(cs);
      if |texts| == 1 then texts[0]
      else
        JoinHasNoChar(texts, AnswerSeparator, '\t');
        JoinHasNoChar(texts, AnswerSeparator, '\n');
        Join(texts, AnswerSeparator)
  }

  /** Joining pieces and a separator that all lack `c` gives a string that lacks `c`. */
  lemma {:induction false} JoinHasNoChar(parts: seq<string>, sep: string, c: char)
    requires c !in sep && forall j :: 0 <= j < |parts| ==> c !in parts[j]
    ensures c !in Join(parts, sep)
  {
    if |parts| > 1 {
      JoinHasNoChar(parts[1..], sep, c);
    }
  }

  /** The back by the number of correct answers. */
  lemma FormatAnswerCases(q: Question)
    ensures (forall a :: a in q.answers ==> !a.isCorrect) ==> FormatAnswer(q) == NoCorrectAnswer
    ensures var cs := CorrectAnswers(q.answers);
      && (|cs| == 1 ==> FormatAnswer(q) == FormatCardText(cs[0].text))
      && (|cs| > 1 ==> FormatAnswer(q) == Join(CardTexts(cs), AnswerSeparator))
  {
    var cs := CorrectAnswers(q.answers);
    if cs != [] {
      assert cs[0] in cs;
    }
  }

  /** A question with a correct answer never gets the "no correct answer" back from an empty filter. */
  lemma CorrectAnswerShown(q: Question, k: nat)
    requires k < |q.answers| && q.answers[k].isCorrect
    ensures CorrectAnswers(q.answers) != []
    ensures CorrectAnswers(q.answers) == [q.answers[k]] ==> FormatAnswer(q) == FormatCardText(q.answers[k].text)
  {
    CorrectAnswersComplete(q.answers, k);
  }

  // ---------------------------------------------------------------------------
  // the TSV file
  // ---------------------------------------------------------------------------

  /** One line of the file: front, a tab, back. */
  function TsvLine(q: Question): (line: string)
    ensures '\n' !in line
  {
    FormatCardText(q.text) + "\t" + FormatAnswer(q)
  }

  function TsvLines(questions: seq<Question>): (lines: seq<string>)
    ensures |lines| == |questions|
    ensures forall i :: 0 <= i < |lines| ==> lines[i] == TsvLine(questions[i])
  {
    seq(|questions|, i requires 0 <= i < |questions| => TsvLine(questions[i]))
  }

  /**
   * The line-building part of `export`: one line per question, joined with
   * line feeds, plus a final line feed; the count is the number of lines.
   */
  method Export(questions: seq<Question>) returns (content: string, count: nat)
    ensures content == Join(TsvLines(questions), "\n") + "\n"
    ensures count == |questions|
  {
    var lines: seq<string> := [];
    for i := 0 to |questions|
      invariant |lines| == i
      invariant forall j :: 0 <= j < i ==> lines[j] == TsvLine(questions[j])
    {
      var front := FormatCardText(questions[i].text);
      var back := FormatAnswer(questions[i]);
      var line := front + "\t" + back;
      assert line == TsvLine(questions[i]);
      lines := lines + [line];
    }
    assert lines == TsvLines(questions);
    content := Join(lines, "\n") + "\n";
    count := |lines|;
  }

  /** A line read back splits at its one tab into the card's front and back. */
  lemma TsvLineReadsBack(q: Question)
    ensures Split(TsvLine(q), "\t") == [FormatCardText(q.text), FormatAnswer(q)]
  {
    var front := FormatCardText(q.text);
    var back := FormatAnswer(q);
    JoinCons(front, [back], "\t");
    assert [front] + [back] == [front, back];
    SplitOfJoin([front, back], '\t');
  }

  /**
   * Reading the file back: its lines are the questions' lines followed by
   * the empty remainder after the last line feed, and each line splits at
   * its one tab into the card's front and back.
   */
  lemma TsvReadsBack(questions: seq<Question>)
    requires questions != []
    ensures var lines := TsvLines(questions);
      Split(Join(lines, "\n") + "\n", "\n") == lines + [""]
    ensures forall i :: 0 <= i < |questions| ==>
      Split(TsvLine(questions[i]), "\t") == [FormatCardText(questions[i].text), FormatAnswer(questions[i])]
  {
    var lines := TsvLines(questions);
    JoinAppend(lines, "", "\n");
    assert Join(lines, "\n") + "\n" == Join(lines + [""], "\n");
    SplitOfJoin(lines + [""], '\n');
    forall i | 0 <= i < |questions|
      ensures Split(TsvLine(questions[i]), "\t") == [FormatCardText(questions[i].text), FormatAnswer(questions[i])]
    {
      TsvLineReadsBack(questions[i]);
    }
  }
}
