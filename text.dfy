/**
 * The string operations the quiz tool borrows from Python's `str`:
 * `strip`, `split(sep)`, `split()`, `sep.join`, `lower`, and the decimal
 * rendering of an `int`.  Whitespace is the ASCII set that `str.strip`,
 * `str.split` and the regular-expression class `\s` all agree on.
 */
module Text {
  import opened Wrappers

  /** Space, tab, line feed, carriage return, vertical tab and form feed. */
  predicate IsSpace(c: char) {
    c == ' ' || c == '\t' || c == '\n' || c == '\r' || c == '\U{B}' || c == '\U{C}'
  }

  /** No whitespace at either end: what `strip` leaves behind. */
  predicate IsStripped(s: string) {
    s == [] || (!IsSpace(s[0]) && !IsSpace(s[|s| - 1]))
  }

  // ---------------------------------------------------------------------------
  // strip
  // ---------------------------------------------------------------------------

  /** Index of the first non-whitespace character of `s` at or after `i`, or `|s|`. */
  function SpaceEnd(s: string, i: nat): (e: nat)
    requires i <= |s|
    ensures i <= e <= |s|
    ensures e < |s| ==> !IsSpace(s[e])
    decreases |s| - i
  {
    if i < |s| && IsSpace(s[i]) then SpaceEnd(s, i + 1) else i
  }

  /** Scanning down from `j` to no lower than `lo`: the end of `s[lo..j]` without its trailing whitespace. */
  function SpaceStart(s: string, lo: nat, j: nat): (e: nat)
    requires lo <= j <= |s|
    ensures lo <= e <= j
    ensures e > lo ==> !IsSpace(s[e - 1])
    ensures lo < j && !IsSpace(s[lo]) ==> e > lo
    decreases j
  {
    if j > lo && IsSpace(s[j - 1]) then SpaceStart(s, lo, j - 1) else j
  }

  /** Every character `SpaceEnd` skips is whitespace. */
  lemma {:induction false} SpaceEndSkipsSpaces(s: string, i: nat)
    requires i <= |s|
    ensures forall k :: i <= k < SpaceEnd(s, i) ==> IsSpace(s[k])
    decreases |s| - i
  {
    if i < |s| && IsSpace(s[i]) {
      SpaceEndSkipsSpaces(s, i + 1);
    }
  }

  /** Every character `SpaceStart` skips is whitespace. */
  lemma {:induction false} SpaceStartSkipsSpaces(s: string, lo: nat, j: nat)
    requires lo <= j <= |s|
    ensures forall k :: SpaceStart(s, lo, j) <= k < j ==> IsSpace(s[k])
    decreases j
  {
    if j > lo && IsSpace(s[j - 1]) {
      SpaceStartSkipsSpaces(s, lo, j - 1);
    }
  }

  /** `s.lstrip()`: `s` after its leading whitespace. */
  function LStrip(s: string): (r: string)
    ensures |r| <= |s|
    ensures r == [] || !IsSpace(r[0])
  {
    s[SpaceEnd(s, 0)..]
  }

  /** `s.strip()`: `s` without whitespace at either end. */
  function Strip(s: string): (r: string)
    ensures IsStripped(r)
    ensures |r| <= |s|
  {
    var a := SpaceEnd(s, 0);
    s[a..SpaceStart(s, a, |s|)]
  }

  /** `strip` leaves nothing exactly when the string is all whitespace. */
  lemma StripEmpty(s: string)
    ensures Strip(s) == [] <==> forall i :: 0 <= i < |s| ==> IsSpace(s[i])
  {
    SpaceEndSkipsSpaces(s, 0);
  }

  /** A string that already has no whitespace at its ends is left alone by `strip`. */
  lemma {:induction false} StripOfStripped(s: string)
    requires IsStripped(s)
    ensures Strip(s) == s
  {
    if s != [] {
      assert SpaceEnd(s, 0) == 0;
      assert SpaceStart(s, 0, |s|) == |s|;
    }
  }

  /** `strip` only removes characters: what it leaves was in the string. */
  lemma StripChars(s: string)
    ensures forall c :: c in Strip(s) ==> c in s
  {
    var a := SpaceEnd(s, 0);
    var b := SpaceStart(s, a, |s|);
    forall c | c in Strip(s) ensures c in s {
      var i :| 0 <= i < |Strip(s)| && Strip(s)[i] == c;
      assert s[a + i] == c;
    }
  }

  /** A string whose first character is not whitespace keeps that character under `strip`. */
  lemma StripKeepsFirst(s: string)
    requires s != [] && !IsSpace(s[0])
    ensures Strip(s) != [] && Strip(s)[0] == s[0]
  {
    assert SpaceEnd(s, 0) == 0;
  }

  // ---------------------------------------------------------------------------
  // split(sep) and join
  // ---------------------------------------------------------------------------

  /** `sep` occurs in `s` starting at index `k`. */
  predicate OccursAt(s: string, sep: string, k: nat) {
    k + |sep| <= |s| && s[k..k + |sep|] == sep
  }

  /** `sep in s`. */
  ghost predicate Contains(s: string, sep: string) {
    exists k: nat :: OccursAt(s, sep, k)
  }

  /** `s.find(sep, i)`: the first occurrence of `sep` at or after `i`. */
  function FindFrom(s: string, sep: string, i: nat): (r: Option<nat>)
    requires sep != [] && i <= |s|
    decreases |s| - i
    ensures r.Some? ==> i <= r.value && OccursAt(s, sep, r.value)
    ensures forall k: nat :: i <= k && (r.None? || k < r.value) ==> !OccursAt(s, sep, k)
  {
    if i + |sep| > |s| then None
    else if s[i..i + |sep|] == sep then Some(i)
    else FindFrom(s, sep, i + 1)
  }

  /** `sep.join(parts)`. */
  function Join(parts: seq<string>, sep: string): string {
    if |parts| == 0 then ""
    else if |parts| == 1 then parts[0]
    else parts[0] + sep + Join(parts[1..], sep)
  }

  lemma JoinCons(x: string, rest: seq<string>, sep: string)
    requires rest != []
    ensures Join([x] + rest, sep) == x + sep + Join(rest, sep)
  {
    assert ([x] + rest)[1..] == rest;
  }

  /** No occurrence of `sep` starts in `s[i..j]` and fits inside it. */
  lemma NoOccurrenceInSlice(s: string, sep: string, i: nat, j: nat)
    requires i <= j <= |s|
    requires forall k: nat :: i <= k && k + |sep| <= j ==> !OccursAt(s, sep, k)
    ensures !Contains(s[i..j], sep)
  {
    forall m: nat | OccursAt(s[i..j], sep, m) ensures false {
      assert m + |sep| <= j - i;
      forall t | 0 <= t < |sep| ensures s[i + m + t] == sep[t] {
        assert s[i..j][m..m + |sep|][t] == sep[t];
      }
      assert s[i + m..i + m + |sep|] == sep;
      assert OccursAt(s, sep, i + m);
    }
  }

  /** The pieces of `s[i..]` between occurrences of `sep`, taken left to right. */
  function SplitFrom(s: string, sep: string, i: nat): (parts: seq<string>)
    requires sep != [] && i <= |s|
    decreases |s| - i
    ensures |parts| >= 1
  {
    match FindFrom(s, sep, i)
    case None => [s[i..]]
    case Some(k) => [s[i..k]] + SplitFrom(s, sep, k + |sep|)
  }

  /** `s.split(sep)`; `SplitJoin` shows that its pieces join back to `s` and hold no `sep`. */
  function Split(s: string, sep: string): (parts: seq<string>)
    requires sep != []
    ensures |parts| >= 1
  {
    SplitFrom(s, sep, 0)
  }

  lemma {:induction false} SplitFromJoin(s: string, sep: string, i: nat)
    requires sep != [] && i <= |s|
    ensures Join(SplitFrom(s, sep, i), sep) == s[i..]
    decreases |s| - i
  {
    match FindFrom(s, sep, i)
    case None =>
    case Some(k) =>
      var rest := SplitFrom(s, sep, k + |sep|);
      assert SplitFrom(s, sep, i) == [s[i..k]] + rest;
      SplitFromJoin(s, sep, k + |sep|);
      JoinCons(s[i..k], rest, sep);
      assert s[k..k + |sep|] == sep;
      SliceInThree(s, i, k, k + |sep|);
  }

  /** A suffix of `s` is the concatenation of its slices at `b` and `c`. */
  lemma SliceInThree(s: string, a: nat, b: nat, c: nat)
    requires a <= b <= c <= |s|
    ensures s[a..] == s[a..b] + s[b..c] + s[c..]
  {
  }

  lemma {:induction false} SplitFromPieces(s: string, sep: string, i: nat)
    requires sep != [] && i <= |s|
    ensures forall j :: 0 <= j < |SplitFrom(s, sep, i)| ==> !Contains(SplitFrom(s, sep, i)[j], sep)
    decreases |s| - i
  {
    var parts := SplitFrom(s, sep, i);
    match FindFrom(s, sep, i)
    case None =>
      NoOccurrenceInSlice(s, sep, i, |s|);
      assert s[i..|s|] == s[i..];
    case Some(k) =>
      var rest := SplitFrom(s, sep, k + |sep|);
      SplitFromPieces(s, sep, k + |sep|);
      NoOccurrenceInSlice(s, sep, i, k);
      assert parts == [s[i..k]] + rest;
      forall j | 0 <= j < |parts| ensures !Contains(parts[j], sep) {
        if j > 0 {
          assert parts[j] == rest[j - 1];
        }
      }
  }

  /** `sep.join(s.split(sep)) == s`, and no piece of the split contains `sep`. */
  lemma SplitJoin(s: string, sep: string)
    requires sep != []
    ensures Join(Split(s, sep), sep) == s
    ensures forall j :: 0 <= j < |Split(s, sep)| ==> !Contains(Split(s, sep)[j], sep)
  {
    SplitFromJoin(s, sep, 0);
    SplitFromPieces(s, sep, 0);
  }

  /** A piece that does not contain a one-character separator does not contain that character. */
  lemma NotContainsChar(t: string, c: char)
    requires !Contains(t, [c])
    ensures c !in t
  {
    if c in t {
      var m :| 0 <= m < |t| && t[m] == c;
      assert OccursAt(t, [c], m);
    }
  }

  /** The lines produced by `split("\n")` hold no line feed. */
  lemma SplitLinesNoNewline(s: string)
    ensures forall j :: 0 <= j < |Split(s, "\n")| ==> '\n' !in Split(s, "\n")[j]
  {
    var parts := Split(s, "\n");
    SplitJoin(s, "\n");
    forall j | 0 <= j < |parts| ensures '\n' !in parts[j] {
      NotContainsChar(parts[j], '\n');
    }
  }

  /** The first piece of a split is a prefix of the string. */
  lemma {:induction false} JoinFirst(parts: seq<string>, sep: string)
    requires |parts| >= 1
    ensures |parts[0]| <= |Join(parts, sep)|
    ensures Join(parts, sep)[..|parts[0]|] == parts[0]
    ensures |parts| > 1 ==> Join(parts, sep)[|parts[0]|..|parts[0]| + |sep|] == sep
  {
    if |parts| > 1 {
      var j := Join(parts, sep);
      assert j == parts[0] + sep + Join(parts[1..], sep);
      assert j[..|parts[0]|] == parts[0];
      assert j[|parts[0]|..|parts[0]| + |sep|] == sep;
    }
  }

  /** Joining one more piece appends the separator and that piece. */
  lemma {:induction false} JoinAppend(parts: seq<string>, x: string, sep: string)
    requires |parts| >= 1
    ensures Join(parts + [x], sep) == Join(parts, sep) + sep + x
  {
    if |parts| == 1 {
      assert parts + [x] == [parts[0], x];
      assert (parts + [x])[1..] == [x];
    } else {
      assert (parts + [x])[1..] == parts[1..] + [x];
      JoinAppend(parts[1..], x, sep);
    }
  }

  /** The first occurrence at or after `i` is the one `find` reports. */
  lemma FindFromFirst(s: string, sep: string, i: nat, m: nat)
    requires sep != [] && i <= m && OccursAt(s, sep, m)
    requires forall k: nat :: i <= k < m ==> !OccursAt(s, sep, k)
    ensures FindFrom(s, sep, i) == Some(m)
  {
  }

  /** Without an occurrence at or after `i`, `find` reports none. */
  lemma FindFromNone(s: string, sep: string, i: nat)
    requires sep != [] && i <= |s|
    requires forall k: nat :: i <= k ==> !OccursAt(s, sep, k)
    ensures FindFrom(s, sep, i) == None
  {
  }

  /** One step of `SplitFrom` where `sep` is found at `m`. */
  lemma SplitFromFound(s: string, sep: string, k: nat, m: nat)
    requires sep != [] && k <= |s| && FindFrom(s, sep, k) == Some(m)
    ensures SplitFrom(s, sep, k) == [s[k..m]] + SplitFrom(s, sep, m + |sep|)
  {
  }

  /** A string without `c` holds no occurrence of the one-character separator `[c]`. */
  lemma NoCharNoFind(s: string, c: char)
    requires c !in s
    ensures FindFrom(s, [c], 0) == None
  {
    forall k: nat | k < |s|
      ensures !OccursAt(s, [c], k)
    {
      assert s[k..k + 1] == [s[k]];
    }
  }

  /**
   * Splitting a join on a one-character separator that no piece contains
   * gives the pieces back.
   */
  lemma SplitOfJoin(parts: seq<string>, c: char)
    requires parts != [] && forall j :: 0 <= j < |parts| ==> c !in parts[j]
    ensures Split(Join(parts, [c]), [c]) == parts
  {
    var s := Join(parts, [c]);
    assert s[0..] == s;
    SplitFromOfJoin(s, 0, parts, c);
  }

  /** A piece without `c` holds no occurrence of `[c]`. */
  lemma NoCharInSlice(s: string, n: nat, p: string, c: char)
    requires n + |p| <= |s| && s[n..n + |p|] == p && c !in p
    ensures forall k: nat :: n <= k < n + |p| ==> !OccursAt(s, [c], k)
  {
    forall k: nat | n <= k < n + |p|
      ensures !OccursAt(s, [c], k)
    {
      assert s[k..k + 1] == [p[k - n]];
    }
  }

  /** The rest of `s` from `n` on, a piece without `c`, splits to itself. */
  lemma SplitFromLast(s: string, n: nat, p: string, c: char)
    requires n <= |s| && s[n..] == p && c !in p
    ensures SplitFrom(s, [c], n) == [p]
  {
    assert s[n..n + |p|] == p;
    NoCharInSlice(s, n, p, c);
    FindFromNone(s, [c], n);
  }

  /** A piece without `c` and then `c`: the split takes the piece and goes on after `c`. */
  lemma SplitFromPiece(s: string, n: nat, p: string, c: char)
    requires n + |p| < |s| && s[n..n + |p|] == p && s[n + |p|] == c && c !in p
    ensures SplitFrom(s, [c], n) == [p] + SplitFrom(s, [c], n + |p| + 1)
  {
    NoCharInSlice(s, n, p, c);
    assert s[n + |p|..n + |p| + 1] == [c];
    FindFromFirst(s, [c], n, n + |p|);
    SplitFromFound(s, [c], n, n + |p|);
  }

  /** Where a join of two or more pieces ends a string, its first piece, `c` and the rest follow each other. */
  lemma JoinSlices(s: string, n: nat, parts: seq<string>, c: char)
    requires n <= |s| && s[n..] == Join(parts, [c]) && |parts| >= 2
    ensures n + |parts[0]| < |s|
    ensures s[n..n + |parts[0]|] == parts[0] && s[n + |parts[0]|] == c
    ensures s[n + |parts[0]| + 1..] == Join(parts[1..], [c])
  {
    var p := parts[0];
    var t := Join(parts[1..], [c]);
    assert s[n..] == p + [c] + t;
    assert s[n..][..|p|] == p;
    assert s[n..][|p|] == c;
    assert s[n..][|p| + 1..] == t;
  }

  /** A sequence is its first element followed by the rest. */
  lemma ConsBack<T>(whole: seq<T>, tail: seq<T>, xs: seq<T>)
    requires |xs| >= 1 && whole == [xs[0]] + tail && tail == xs[1..]
    ensures whole == xs
  {
  }

  /** `SplitOfJoin` for a join that ends a string, splitting from where the join starts. */
  lemma {:induction false} SplitFromOfJoin(s: string, n: nat, parts: seq<string>, c: char)
    requires n <= |s| && s[n..] == Join(parts, [c])
    requires parts != [] && forall j :: 0 <= j < |parts| ==> c !in parts[j]
    ensures SplitFrom(s, [c], n) == parts
    decreases |parts|
  {
    if |parts| == 1 {
      SplitFromLast(s, n, parts[0], c);
    } else {
      var m := n + |parts[0]| + 1;
      JoinSlices(s, n, parts, c);
      SplitFromOfJoin(s, m, parts[1..], c);
      SplitFromPiece(s, n, parts[0], c);
      ConsBack(SplitFrom(s, [c], n), SplitFrom(s, [c], m), parts);
    }
  }

  // ---------------------------------------------------------------------------
  // split() without argument, and the whitespace normalisation built on it
  // ---------------------------------------------------------------------------

  /** A non-empty run of non-whitespace characters. */
  predicate IsWord(w: string) {
    w != [] && forall i :: 0 <= i < |w| ==> !IsSpace(w[i])
  }

  /** The end of the run of non-whitespace characters that starts at `i`. */
  function WordEnd(s: string, i: nat): (e: nat)
    requires i <= |s|
    decreases |s| - i
    ensures i <= e <= |s|
    ensures forall k :: i <= k < e ==> !IsSpace(s[k])
    ensures e < |s| ==> IsSpace(s[e])
  {
    if i == |s| || IsSpace(s[i]) then i else WordEnd(s, i + 1)
  }

  /** `s.split()`: the maximal runs of non-whitespace characters, in order. */
  function Words(s: string): (ws: seq<string>)
    decreases |s|
    ensures forall j :: 0 <= j < |ws| ==> IsWord(ws[j])
  {
    if s == [] then []
    else if IsSpace(s[0]) then Words(s[1..])
    else
      var e := WordEnd(s, 0);
      assert e > 0 && IsWord(s[..e]);
      [s[..e]] + Words(s[e..])
  }

  /** The non-whitespace characters of `s`, in order. */
  function NonSpace(s: string): string {
    if s == [] then [] else (if IsSpace(s[0]) then [] else [s[0]]) + NonSpace(s[1..])
  }

  /** The characters of the pieces, in order. */
  function Concat(ws: seq<string>): string {
    if ws == [] then [] else ws[0] + Concat(ws[1..])
  }

  lemma {:induction false} NonSpaceAppend(a: string, b: string)
    ensures NonSpace(a + b) == NonSpace(a) + NonSpace(b)
  {
    if a == [] {
      assert a + b == b;
    } else {
      assert (a + b)[1..] == a[1..] + b;
      NonSpaceAppend(a[1..], b);
    }
  }

  lemma {:induction false} NonSpaceOfWord(s: string)
    requires forall i :: 0 <= i < |s| ==> !IsSpace(s[i])
    ensures NonSpace(s) == s
  {
    if s != [] { NonSpaceOfWord(s[1..]); }
  }

  /** `split()` loses and invents no non-whitespace character: the words spell out exactly the
      non-whitespace characters of `s`. */
  lemma {:induction false} WordsKeepCharacters(s: string)
    ensures Concat(Words(s)) == NonSpace(s)
    decreases |s|
  {
    if s == [] {
    } else if IsSpace(s[0]) {
      WordsKeepCharacters(s[1..]);
    } else {
      var e := WordEnd(s, 0);
      var w, rest := s[..e], s[e..];
      assert s == w + rest;
      NonSpaceAppend(w, rest);
      NonSpaceOfWord(w);
      WordsKeepCharacters(rest);
      var ws := Words(s);
      assert ws == [w] + Words(rest);
      assert ws[0] == w && ws[1..] == Words(rest);
    }
  }

  /** `" ".join(s.split())`: whitespace runs become one space, none at the ends. */
  function CollapseSpaces(s: string): string {
    Join(Words(s), " ")
  }

  /** What the collapse produces: the only whitespace is single spaces between words. */
  predicate SingleSpaced(t: string) {
    && IsStripped(t)
    && (forall i :: 0 <= i < |t| && IsSpace(t[i]) ==> t[i] == ' ')
    && (forall i :: 0 <= i < |t| - 1 ==> !(IsSpace(t[i]) && IsSpace(t[i + 1])))
  }

  /** A word, a space, and a single-spaced string starting with a word character. */
  lemma WordSpaceSingleSpaced(w: string, r: string)
    requires IsWord(w) && SingleSpaced(r) && r != [] && !IsSpace(r[0])
    ensures SingleSpaced(w + " " + r)
  {
    var t := w + " " + r;
    forall i | 0 <= i < |t| - 1 ensures !(IsSpace(t[i]) && IsSpace(t[i + 1])) {
      if i < |w| {
        assert t[i] == w[i];
      } else if i == |w| {
        assert t[i + 1] == r[0];
      } else {
        assert t[i] == r[i - |w| - 1] && t[i + 1] == r[i - |w|];
      }
    }
    forall i | 0 <= i < |t| && IsSpace(t[i]) ensures t[i] == ' ' {
      if i > |w| {
        assert t[i] == r[i - |w| - 1];
      }
    }
    assert t[0] == w[0];
    assert t[|t| - 1] == r[|r| - 1];
  }

  lemma {:induction false} JoinWordsSingleSpaced(ws: seq<string>)
    requires forall j :: 0 <= j < |ws| ==> IsWord(ws[j])
    ensures SingleSpaced(Join(ws, " "))
    ensures ws != [] ==> Join(ws, " ") != [] && !IsSpace(Join(ws, " ")[0])
  {
    if |ws| > 1 {
      JoinWordsSingleSpaced(ws[1..]);
      WordSpaceSingleSpaced(ws[0], Join(ws[1..], " "));
    }
  }

  /** The collapse of any string is single-spaced. */
  lemma CollapseIsSingleSpaced(s: string)
    ensures SingleSpaced(CollapseSpaces(s))
  {
    JoinWordsSingleSpaced(Words(s));
  }

  /** `WordEnd` is the first whitespace position at or after `i`. */
  lemma WordEndCharacterized(s: string, i: nat, e: nat)
    requires i <= e <= |s|
    requires forall k :: i <= k < e ==> !IsSpace(s[k])
    requires e == |s| || IsSpace(s[e])
    ensures WordEnd(s, i) == e
  {
  }

  /** The words of a word followed by more text. */
  lemma WordsOfWordThen(w: string, rest: string)
    requires IsWord(w) && (rest == [] || IsSpace(rest[0]))
    ensures Words(w + rest) == [w] + Words(rest)
  {
    var t := w + rest;
    assert t[0] == w[0];
    WordEndCharacterized(t, 0, |w|);
    assert t[..|w|] == w && t[|w|..] == rest;
  }

  /** Splitting words joined with single spaces gives the words back. */
  lemma {:induction false} WordsOfJoin(ws: seq<string>)
    requires forall j :: 0 <= j < |ws| ==> IsWord(ws[j])
    ensures Words(Join(ws, " ")) == ws
  {
    if |ws| == 1 {
      WordsOfWordThen(ws[0], []);
      assert ws[0] + [] == ws[0];
    } else if |ws| > 1 {
      var r := Join(ws[1..], " ");
      WordsOfJoin(ws[1..]);
      assert Words(" " + r) == Words(r) by {
        assert (" " + r)[1..] == r;
      }
      WordsOfWordThen(ws[0], " " + r);
      assert ws[0] + " " + r == ws[0] + (" " + r);
      assert ws == [ws[0]] + ws[1..];
    }
  }

  /** Collapsing whitespace keeps the words: `(" ".join(s.split())).split() == s.split()`. */
  lemma CollapseKeepsWords(s: string)
    ensures Words(CollapseSpaces(s)) == Words(s)
  {
    WordsOfJoin(Words(s));
  }

  /** Collapsing twice is collapsing once. */
  lemma CollapseIdempotent(s: string)
    ensures CollapseSpaces(CollapseSpaces(s)) == CollapseSpaces(s)
  {
    CollapseKeepsWords(s);
  }

  /** `s.split()` is empty exactly when `s` is all whitespace. */
  lemma {:induction false} WordsEmpty(s: string)
    ensures Words(s) == [] <==> forall i :: 0 <= i < |s| ==> IsSpace(s[i])
    decreases |s|
  {
    if s != [] && IsSpace(s[0]) {
      WordsEmpty(s[1..]);
      assert forall i :: 1 <= i < |s| ==> s[i] == s[1..][i - 1];
    }
  }

  /** The collapse is empty exactly when `strip` leaves nothing. */
  lemma CollapseEmpty(s: string)
    ensures CollapseSpaces(s) == [] <==> Strip(s) == []
  {
    WordsEmpty(s);
    StripEmpty(s);
    var ws := Words(s);
    if ws != [] {
      assert IsWord(ws[0]);
      if |ws| > 1 {
        JoinCons(ws[0], ws[1..], " ");
        assert [ws[0]] + ws[1..] == ws;
      }
    }
  }

  /** `s.count(c)` for a one-character string `c`. */
  function CountChar(s: string, c: char): (n: nat)
    ensures n <= |s|
    ensures n == 0 <==> c !in s
  {
    if s == [] then 0 else (if s[0] == c then 1 else 0) + CountChar(s[1..], c)
  }

  // ---------------------------------------------------------------------------
  // lower, replace, decimal digits
  // ---------------------------------------------------------------------------

  function LowerChar(c: char): char {
    if 'A' <= c <= 'Z' then (c as int + 32) as char else c
  }

  /** `s.lower()` on ASCII letters; every other character is left as it is. */
  function Lower(s: string): (r: string)
    ensures |r| == |s|
  {
    if s == [] then [] else [LowerChar(s[0])] + Lower(s[1..])
  }

  /** `lower` works character by character. */
  lemma {:induction false} LowerAt(s: string, i: nat)
    requires i < |s|
    ensures Lower(s)[i] == LowerChar(s[i])
  {
    if i > 0 {
      LowerAt(s[1..], i - 1);
    }
  }

  /** `Lower(a) == b`, compared one character at a time. */
  predicate LowerEquals(a: string, b: string) {
    |a| == |b| && LowerEqualsFrom(a, b, 0)
  }

  /** `Lower(a)[i..] == b[i..]` for strings of one length. */
  predicate LowerEqualsFrom(a: string, b: string, i: nat)
    requires |a| == |b| && i <= |a|
    decreases |a| - i
  {
    i == |a| || (LowerChar(a[i]) == b[i] && LowerEqualsFrom(a, b, i + 1))
  }

  lemma {:induction false} LowerEqualsFromAt(a: string, b: string, i: nat)
    requires |a| == |b| && i <= |a|
    ensures LowerEqualsFrom(a, b, i) <==> forall k :: i <= k < |a| ==> Lower(a)[k] == b[k]
    decreases |a| - i
  {
    if i < |a| {
      LowerEqualsFromAt(a, b, i + 1);
      LowerAt(a, i);
    }
  }

  /** The character-by-character comparison agrees with `Lower`. */
  lemma LowerEqualsIsLower(a: string, b: string)
    ensures LowerEquals(a, b) <==> Lower(a) == b
  {
    if |a| == |b| {
      LowerEqualsFromAt(a, b, 0);
      if Lower(a) != b {
        var k :| 0 <= k < |a| && Lower(a)[k] != b[k];
      }
    }
  }

  /** `s.replace(old, new)` for one character by one character. */
  function ReplaceChar(s: string, from: char, to: char): (r: string)
    ensures |r| == |s|
    ensures forall i :: 0 <= i < |s| ==> r[i] == if s[i] == from then to else s[i]
  {
    seq(|s|, i requires 0 <= i < |s| => if s[i] == from then to else s[i])
  }

  /** Replacing a character that does not occur changes nothing. */
  lemma ReplaceAbsent(s: string, from: char, to: char)
    requires from !in s
    ensures ReplaceChar(s, from, to) == s
  {
  }

  function DigitChar(d: nat): char
    requires d < 10
  {
    "0123456789"[d]
  }

  /** `str(n)` for a natural number. */
  function NatToString(n: nat): (r: string)
    ensures r != []
    ensures forall i :: 0 <= i < |r| ==> '0' <= r[i] <= '9'
    ensures |r| > 1 ==> r[0] != '0'
  {
    if n < 10 then [DigitChar(n)] else NatToString(n / 10) + [DigitChar(n % 10)]
  }

  /** The number a string of decimal digits denotes. */
  function DigitsValue(s: string): nat
    requires forall i :: 0 <= i < |s| ==> '0' <= s[i] <= '9'
  {
    if s == [] then 0 else 10 * DigitsValue(s[..|s| - 1]) + (s[|s| - 1] as int - '0' as int)
  }

  /** Reading the digits back gives the number: `int(str(n)) == n`. */
  lemma {:induction false} NatToStringRoundTrip(n: nat)
    ensures DigitsValue(NatToString(n)) == n
  {
    if n >= 10 {
      NatToStringRoundTrip(n / 10);
      var s := NatToString(n);
      assert s[..|s| - 1] == NatToString(n / 10);
    }
  }
}
