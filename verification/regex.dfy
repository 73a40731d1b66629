/** The handful of regular-expression substitutions the cleaning code runs,
    each written out as the matcher Python's `re.sub` behaves as for that one
    pattern: scan from the left, replace the longest match the backtracking
    engine settles on at the first position where one exists, and resume the
    scan right after it. `\s` is `IsSpace`, `.` is any character except `\n`,
    and `re.IGNORECASE` compares ASCII letters without case. */
module Regex {
  import opened Results
  import opened Text

  // ------------------------------------------------------------------ spans

  /** End of the non-whitespace run (`\S+`) starting at `i`. */
  function SpanWord(s: string, i: nat): (j: nat)
    requires i <= |s|
    ensures i <= j <= |s|
    ensures forall k | i <= k < j :: !IsSpace(s[k])
    ensures j == |s| || IsSpace(s[j])
    decreases |s| - i
  {
    if i < |s| && !IsSpace(s[i]) then SpanWord(s, i + 1) else i
  }

  /** End of the run of `c` starting at `i`. */
  function SpanChar(s: string, i: nat, c: char): (j: nat)
    requires i <= |s|
    ensures i <= j <= |s|
    ensures forall k | i <= k < j :: s[k] == c
    ensures j == |s| || s[j] != c
    decreases |s| - i
  {
    if i < |s| && s[i] == c then SpanChar(s, i + 1, c) else i
  }

  /** The characters the URL pattern's repeated group accepts:
      `[a-zA-Z]`, `[0-9]`, the range `[$-_]` (which already holds digits,
      capitals, `@ . & + %` and most punctuation), and `[!*\(),]`. */
  predicate IsUrlChar(c: char) {
    ('$' <= c <= '_') || ('a' <= c <= 'z') || c == '!'
  }

  /** End of the run of URL characters starting at `i`. */
  function SpanUrl(s: string, i: nat): (j: nat)
    requires i <= |s|
    ensures i <= j <= |s|
    ensures forall k | i <= k < j :: IsUrlChar(s[k])
    ensures j == |s| || !IsUrlChar(s[j])
    decreases |s| - i
  {
    if i < |s| && IsUrlChar(s[i]) then SpanUrl(s, i + 1) else i
  }

  /** Where `.*` starting at `i` stops: the next line break, or the end. */
  function LineEnd(s: string, i: nat): (j: nat)
    requires i <= |s|
    ensures i <= j <= |s|
    ensures forall k | i <= k < j :: s[k] != '\n'
    ensures j == |s| || s[j] == '\n'
    decreases |s| - i
  {
    if i < |s| && s[i] != '\n' then LineEnd(s, i + 1) else i
  }

  /** Sentence marks `[.!?]`. */
  predicate IsMark(c: char) {
    c == '.' || c == '!' || c == '?'
  }

  // --------------------------------------------------------------- patterns

  /** The patterns of the cleaning code, each with its replacement. */
  datatype Pattern =
    | DashSuffix(keyword: string, anywhere: bool)  // `\s*-\s*.*?KW.*` (anywhere) or `\s*-\s*KW.*`, to ''
    | PipeSuffix                                   // `\s*\|\s*.*`, to ''
    | Phrase(words: string)                        // `WORDS.*`, to ''
    | Url                                          // `http[s]?://(?:...)+`, to ''
    | Email                                        // `\S+@\S+`, to ''
    | Run(c: char, least: nat, replacement: string) // `[c]{least,}`, to `replacement`
    | SpaceRun                                     // `\s{2,}`, to ' '
    | NewlineRun                                   // `(\n\s*){2,}`, to '\n\n'
    | SpaceBeforeMark                              // `\s+([.!?])`, to the mark
    | MarkPair                                     // `([.!?])\s*([.!?])`, to both marks with one space

  /** Characters a replacement may bring in that are not copied from the text. */
  function Inserted(p: Pattern): set<char> {
    match p
    case Run(_, _, r) => set x | x in r
    case SpaceRun => {' '}
    case NewlineRun => {'\n'}
    case MarkPair => {' '}
    case _ => {}
  }

  /** Patterns whose match runs to the end of the line and is deleted. */
  predicate CutsLine(p: Pattern) {
    p.DashSuffix? || p.PipeSuffix? || p.Phrase?
  }

  /** A match at the start of the text: where it ends and what replaces it. */
  datatype Match = Match(end: nat, replacement: string)

  /** The match of `p` at position 0 of `s`, if the pattern matches there. */
  function MatchAt(s: string, p: Pattern): (m: Option<Match>)
    ensures m.Some? ==> 0 < m.value.end <= |s|
    ensures m.Some? ==> forall x | x in m.value.replacement :: x in s || x in Inserted(p)
    ensures m.Some? && CutsLine(p) ==>
      m.value.replacement == [] && (m.value.end == |s| || s[m.value.end] == '\n')
  {
    match p
    case DashSuffix(kw, anywhere) =>
      var i := SpanSpace(s, 0);
      if i < |s| && s[i] == '-' then
        var j := SpanSpace(s, i + 1);
        var e := LineEnd(s, j);
        if (if anywhere then Find(s[..e], kw, j).Some? else MatchesAt(s[..e], j, kw)) then Some(Match(e, []))
        else None
      else None
    case PipeSuffix =>
      var i := SpanSpace(s, 0);
      if i < |s| && s[i] == '|' then Some(Match(LineEnd(s, SpanSpace(s, i + 1)), [])) else None
    case Phrase(w) =>
      if |w| > 0 && MatchesAt(s, 0, w) then Some(Match(LineEnd(s, |w|), [])) else None
    case Url =>
      var n := if |s| >= 8 && s[..8] == "https://" then 8 else if |s| >= 7 && s[..7] == "http://" then 7 else 0;
      if n > 0 && SpanUrl(s, n) > n then Some(Match(SpanUrl(s, n), [])) else None
    case Email =>
      var e := SpanWord(s, 0);
      if e >= 2 && '@' in s[1..e - 1] then Some(Match(e, [])) else None
    case Run(c, least, r) =>
      var e := SpanChar(s, 0, c);
      if e > 0 && e >= least then Some(Match(e, r)) else None
    case SpaceRun =>
      var e := SpanSpace(s, 0);
      if e >= 2 then Some(Match(e, " ")) else None
    case NewlineRun =>
      var e := SpanSpace(s, 0);
      if |s| > 0 && s[0] == '\n' && '\n' in s[1..e] then Some(Match(e, "\n\n")) else None
    case SpaceBeforeMark =>
      var e := SpanSpace(s, 0);
      if 0 < e < |s| && IsMark(s[e]) then Some(Match(e + 1, [s[e]])) else None
    case MarkPair =>
      if |s| > 0 && IsMark(s[0]) then
        var j := SpanSpace(s, 1);
        if j < |s| && IsMark(s[j]) then Some(Match(j + 1, [s[0], ' ', s[j]])) else None
      else None
  }

  /** `re.sub(p, replacement, s)`. */
  function Sub(s: string, p: Pattern): string
    decreases |s|
  {
    if |s| == 0 then []
    else match MatchAt(s, p)
      case Some(m) => m.replacement + Sub(s[m.end..], p)
      case None => [s[0]] + Sub(s[1..], p)
  }

  /** A substitution only copies characters of the text, plus the literal
      characters of the pattern's replacement. */
  lemma {:induction false} SubChars(s: string, p: Pattern)
    ensures forall x | x in Sub(s, p) :: x in s || x in Inserted(p)
    decreases |s|
  {
    if |s| > 0 {
      var r := Sub(s, p);
      match MatchAt(s, p)
      case Some(m) =>
        var rest := Sub(s[m.end..], p);
        assert r == m.replacement + rest;
        SubChars(s[m.end..], p);
        forall x | x in r ensures x in s || x in Inserted(p) {
          InSuffix(x, s, m.end);
        }
      case None =>
        var rest := Sub(s[1..], p);
        assert r == [s[0]] + rest;
        SubChars(s[1..], p);
        forall x | x in r ensures x in s || x in Inserted(p) {
          InSuffix(x, s, 1);
        }
    }
  }

  /** What occurs in a suffix occurs in the text. */
  lemma InSuffix(x: char, s: string, n: nat)
    requires n <= |s|
    ensures x in s[n..] ==> x in s
  {
    if x in s[n..] {
      var k :| 0 <= k < |s[n..]| && s[n..][k] == x;
      assert s[n + k] == x;
    }
  }

  /** A character neither in the text nor brought in by the replacement does
      not appear after the substitution. */
  lemma SubKeepsOut(s: string, p: Pattern, c: char)
    requires c !in s && c !in Inserted(p)
    ensures c !in Sub(s, p)
  {
    SubChars(s, p);
  }

  // ---------------------------------------------------- cuts to line end

  /** Where the scan first finds a match of `p`, or `|s|` if it finds none. */
  function FirstMatch(s: string, p: Pattern): (k: nat)
    ensures k <= |s|
    decreases |s|
  {
    if |s| == 0 || MatchAt(s, p).Some? then 0 else 1 + FirstMatch(s[1..], p)
  }

  /** The scan finds no match before `FirstMatch`, and one at it. */
  lemma {:induction false} FirstMatchFacts(s: string, p: Pattern)
    ensures forall q | 0 <= q < FirstMatch(s, p) :: MatchAt(s[q..], p).None?
    ensures FirstMatch(s, p) < |s| ==> MatchAt(s[FirstMatch(s, p)..], p).Some?
    decreases |s|
  {
    if |s| > 0 && MatchAt(s, p).None? {
      var k := FirstMatch(s[1..], p);
      FirstMatchFacts(s[1..], p);
      assert forall q | 1 <= q <= k :: s[q..] == s[1..][q - 1..];
    }
  }

  /** On one line, the only line end is the end of the text. */
  lemma LineEndIsEnd(s: string, e: nat)
    requires '\n' !in s && e <= |s| && (e == |s| || s[e] == '\n')
    ensures e == |s|
  {
  }

  /** On one line of text, a pattern that deletes to the end of the line
      keeps exactly the text before its first match. */
  lemma {:induction false} CutAtFirstMatch(s: string, p: Pattern)
    requires CutsLine(p) && '\n' !in s
    ensures Sub(s, p) == s[..FirstMatch(s, p)]
    decreases |s|
  {
    if |s| > 0 {
      var k := FirstMatch(s, p);
      match MatchAt(s, p)
      case Some(m) =>
        LineEndIsEnd(s, m.end);
        assert k == 0;
        assert Sub(s, p) == [] + Sub(s[|s|..], p);
      case None =>
        CutAtFirstMatch(s[1..], p);
        assert k == 1 + FirstMatch(s[1..], p);
        assert Sub(s, p) == [s[0]] + Sub(s[1..], p);
        assert s[..k] == [s[0]] + s[1..][..k - 1];
    }
  }

  /** The pipe pattern matches at the start exactly when the first
      non-whitespace character is `|`. */
  lemma PipeMatchAt(s: string)
    ensures MatchAt(s, PipeSuffix).Some? <==> SpanSpace(s, 0) < |s| && s[SpanSpace(s, 0)] == '|'
  {
  }

  /** `rstrip` of a text starting with a kept character. */
  lemma TrimEndCons(c: char, t: string)
    requires !IsSpace(c) || !IsBlank(t)
    ensures TrimEnd([c] + t) == [c] + TrimEnd(t)
  {
    var s := [c] + t;
    var n := |TrimEnd(t)|;
    forall k | n + 1 <= k < |s|
      ensures IsSpace(s[k])
    {
      assert s[k] == t[k - 1] == t[n..][k - 1 - n];
    }
    if n > 0 {
      assert s[n] == t[n - 1];
    }
    TrimEndIs(s, n + 1);
    assert s[..n + 1] == [c] + t[..n];
  }

  /** When the pipe pattern matches at the start, the text before the first
      `|` is all whitespace. */
  lemma PipeMatchIsBlank(s: string)
    requires MatchAt(s, PipeSuffix).Some?
    ensures '|' in s && IsBlank(s[..IndexOf(s, '|')])
  {
    var i := SpanSpace(s, 0);
    var k := IndexOf(s, '|');
    assert i == k;
  }

  /** When the pipe pattern does not match at a leading whitespace character,
      a visible character comes before the first `|`. */
  lemma PipeMissIsVisible(s: string)
    requires '|' in s && |s| > 0 && IsSpace(s[0]) && MatchAt(s, PipeSuffix).None?
    ensures !IsBlank(s[1..IndexOf(s, '|')])
  {
    var i := SpanSpace(s, 0);
    var k := IndexOf(s, '|');
    assert !IsSpace('|');
    assert i <= k;
    assert i != k;
    var t := s[1..k];
    assert t[i - 1] == s[i];
  }

  /** Without a match at the start, the scan and the first `|` both move on
      by one character, and so does the stripped text before that `|`. */
  lemma PipeMissStep(s: string)
    requires '|' in s && MatchAt(s, PipeSuffix).None?
    ensures '|' in s[1..]
    ensures FirstMatch(s, PipeSuffix) == 1 + FirstMatch(s[1..], PipeSuffix)
    ensures IndexOf(s, '|') == 1 + IndexOf(s[1..], '|')
    ensures |TrimEnd(s[..IndexOf(s, '|')])| == 1 + |TrimEnd(s[1..][..IndexOf(s[1..], '|')])|
  {
    var k := IndexOf(s, '|');
    assert s[0] != '|';
    assert s[..k] == [s[0]] + s[1..][..k - 1];
    if IsSpace(s[0]) {
      PipeMissIsVisible(s);
      assert s[1..k] == s[1..][..k - 1];
    }
    TrimEndCons(s[0], s[1..][..k - 1]);
  }

  /** The pipe pattern's first match starts with the whitespace just before
      the first `|`. */
  lemma {:induction false} PipeFirstMatch(s: string)
    requires '|' in s
    ensures FirstMatch(s, PipeSuffix) == |TrimEnd(s[..IndexOf(s, '|')])|
    decreases |s|
  {
    if MatchAt(s, PipeSuffix).Some? {
      PipeMatchIsBlank(s);
    } else {
      PipeMissStep(s);
      PipeFirstMatch(s[1..]);
    }
  }

  /** After the pipe pattern has run, no `|` is left: every `|` is either
      deleted inside a match or is itself where a match starts. */
  lemma {:induction false} PipeGone(s: string)
    ensures '|' !in Sub(s, PipeSuffix)
    decreases |s|
  {
    if |s| > 0 {
      match MatchAt(s, PipeSuffix)
      case Some(m) =>
        PipeGone(s[m.end..]);
      case None =>
        assert s[0] != '|';
        PipeGone(s[1..]);
    }
  }

  /** The phrase pattern's first match is the first case-insensitive
      occurrence of the phrase. */
  lemma PhraseFirstMatch(s: string, w: string)
    requires |w| > 0
    ensures FirstMatch(s, Phrase(w)) == match Find(s, w, 0) case Some(q) => q case None => |s|
  {
    var k := FirstMatch(s, Phrase(w));
    FirstMatchFacts(s, Phrase(w));
    forall q | 0 <= q < |s|
      ensures MatchAt(s[q..], Phrase(w)).Some? <==> MatchesAt(s, q, w)
    {
      if MatchesAt(s, q, w) {
        assert forall j | 0 <= j < |w| :: s[q..][j] == s[q + j];
      }
      if MatchesAt(s[q..], 0, w) {
        assert forall j | 0 <= j < |w| :: s[q..][j] == s[q + j];
      }
    }
  }
}
