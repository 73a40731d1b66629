/** The pure part of the Streamlit app's article scraper (utils/scrape.py):
    the URL guard in front of the fetch, the cleaning of the extracted article
    text, and the cleaning of its title. Fetching, extraction and URL parsing
    are done by other libraries; they appear here only as parameters. */
module ArticleCleaning {
  import opened Results
  import opened Text
  import opened Regex

  // -------------------------------------------------------------- URL guard

  const ScrapingUnavailable := "Scraping dependencies not available. Please install trafilatura and readability-lxml."
  const EmptyUrl := "URL cannot be empty"
  const InvalidUrl := "Invalid URL format"

  /** The checks `scrape_and_clean` makes before any network access: the
      extraction libraries must be importable, the URL must not be blank, and
      the stripped URL must parse with a scheme and a host (`parses`, standing
      for `urlparse`). On success, the stripped URL is what gets fetched. */
  function CheckUrl(url: string, available: bool, parses: string -> bool): (r: Result<string, string>)
    ensures !available ==> r == Err(ScrapingUnavailable)
    ensures available && IsBlank(url) ==> r == Err(EmptyUrl)
    ensures r.Ok? <==> available && !IsBlank(url) && parses(Strip(url))
    ensures r.Ok? ==> r.value == Strip(url) && r.value != [] && Trimmed(r.value)
    ensures available && !IsBlank(url) && !parses(Strip(url)) ==> r == Err(InvalidUrl)
    ensures r.Err? ==> r.error in {ScrapingUnavailable, EmptyUrl, InvalidUrl}
  {
    if !available then Err(ScrapingUnavailable)
    else if url == [] || Strip(url) == [] then Err(EmptyUrl)
    else if !parses(Strip(url)) then Err(InvalidUrl)
    else Ok(Strip(url))
  }

  // ------------------------------------------------------------ boilerplate

  /** The navigation and footer phrases whose first occurrence, and everything
      after it on the line, is deleted (case ignored), in the order applied. */
  const Boilerplate: seq<string> := [
    "Subscribe to our newsletter", "Follow us on", "Share this article", "Related articles",
    "You might also like", "Advertisement", "Click here to", "Sign up for", "Cookie policy",
    "Privacy policy"]

  /** `re.sub(w + ".*", "", s, flags=re.IGNORECASE)` for each `w` in turn. */
  function CutPhrases(s: string, ws: seq<string>): string
    decreases |ws|
  {
    if |ws| == 0 then s else CutPhrases(Sub(s, Phrase(ws[0])), ws[1..])
  }

  function RemoveBoilerplate(s: string): string {
    CutPhrases(s, Boilerplate)
  }

  /** An occurrence inside a prefix is an occurrence in the whole text. */
  lemma MatchesAtPrefix(s: string, n: nat, p: int, w: string)
    requires n <= |s| && MatchesAt(s[..n], p, w)
    ensures MatchesAt(s, p, w)
  {
    forall j | 0 <= j < |w| ensures Lower(s[p + j]) == Lower(w[j]) {
      assert s[..n][p + j] == s[p + j];
    }
  }

  /** On one line, one phrase pattern keeps the text before the phrase's first
      occurrence: the result is a prefix with no occurrence left, and if it is
      shorter, the phrase occurs where it ends. */
  lemma PhraseCut(s: string, w: string)
    requires '\n' !in s && |w| > 0
    ensures var t := Sub(s, Phrase(w));
      && |t| <= |s| && t == s[..|t|]
      && (forall p :: !MatchesAt(t, p, w))
      && (|t| < |s| ==> MatchesAt(s, |t|, w))
      && ((forall p :: !MatchesAt(s, p, w)) ==> t == s)
  {
    CutAtFirstMatch(s, Phrase(w));
    PhraseFirstMatch(s, w);
    var t := Sub(s, Phrase(w));
    forall p ensures !MatchesAt(t, p, w) {
      if MatchesAt(t, p, w) {
        MatchesAtPrefix(s, |t|, p, w);
      }
    }
  }

  /** On one line, the phrases cut in turn leave a prefix of the text that
      holds none of them; where it stops, one of them occurs; and a text
      holding none of them is left alone. */
  lemma {:induction false} CutPhrasesFacts(s: string, ws: seq<string>)
    requires '\n' !in s
    requires forall k | 0 <= k < |ws| :: |ws[k]| > 0
    ensures var r := CutPhrases(s, ws);
      && |r| <= |s| && r == s[..|r|]
      && (forall k, p | 0 <= k < |ws| :: !MatchesAt(r, p, ws[k]))
      && (|r| < |s| ==> exists k | 0 <= k < |ws| :: MatchesAt(s, |r|, ws[k]))
      && ((forall k, p | 0 <= k < |ws| :: !MatchesAt(s, p, ws[k])) ==> r == s)
    decreases |ws|
  {
    if |ws| > 0 {
      var t := Sub(s, Phrase(ws[0]));
      PhraseCut(s, ws[0]);
      PrefixKeepsOut('\n', s, |t|);
      CutPhrasesFacts(t, ws[1..]);
      var r := CutPhrases(s, ws);
      assert r == CutPhrases(t, ws[1..]);
      forall k, p | 0 <= k < |ws| ensures !MatchesAt(r, p, ws[k]) {
        if k == 0 {
          if MatchesAt(r, p, ws[0]) {
            MatchesAtPrefix(t, |r|, p, ws[0]);
          }
        } else {
          assert ws[k] == ws[1..][k - 1];
        }
      }
      if |r| < |s| {
        if |r| < |t| {
          var k :| 0 <= k < |ws[1..]| && MatchesAt(t, |r|, ws[1..][k]);
          MatchesAtPrefix(s, |t|, |r|, ws[k + 1]);
        } else {
          assert MatchesAt(s, |r|, ws[0]);
        }
      }
      if forall k, p | 0 <= k < |ws| :: !MatchesAt(s, p, ws[k]) {
        assert forall p :: !MatchesAt(s, p, ws[0]);
        assert t == s;
        assert forall k, p | 0 <= k < |ws[1..]| :: !MatchesAt(s, p, ws[1..][k]) by {
          forall k, p | 0 <= k < |ws[1..]| ensures !MatchesAt(s, p, ws[1..][k]) {
            assert ws[1..][k] == ws[k + 1];
          }
        }
      }
    }
  }

  /** The boilerplate removal on one line, as the properties above. */
  lemma BoilerplateCut(s: string)
    requires '\n' !in s
    ensures var r := RemoveBoilerplate(s);
      && |r| <= |s| && r == s[..|r|]
      && (forall k, p | 0 <= k < |Boilerplate| :: !MatchesAt(r, p, Boilerplate[k]))
      && (|r| < |s| ==> exists k | 0 <= k < |Boilerplate| :: MatchesAt(s, |r|, Boilerplate[k]))
      && ((forall k, p | 0 <= k < |Boilerplate| :: !MatchesAt(s, p, Boilerplate[k])) ==> r == s)
  {
    CutPhrasesFacts(s, Boilerplate);
  }

  // ---------------------------------------------------------- article text

  /** URLs, then e-mail addresses, are deleted; runs of three or more dots or
      dashes become three; whitespace before a sentence mark goes; two marks
      with only whitespace between them get exactly one space. */
  function Scrub(s: string): (r: string)
    ensures forall x | x in r :: x in s || x in ".- "
  {
    var noUrl := Sub(s, Url);
    var noMail := Sub(noUrl, Email);
    var dots := Sub(noMail, Run('.', 3, "..."));
    var dashes := Sub(dots, Run('-', 3, "---"));
    var spaced := Sub(dashes, SpaceBeforeMark);
    SubChars(s, Url);
    SubChars(noUrl, Email);
    SubChars(noMail, Run('.', 3, "..."));
    SubChars(dots, Run('-', 3, "---"));
    SubChars(dashes, SpaceBeforeMark);
    SubChars(spaced, MarkPair);
    Sub(spaced, MarkPair)
  }

  /** A stripped line worth keeping: long, or not too short and holding a
      sentence mark. */
  predicate Substantial(line: string) {
    |line| > 15 || (|line| > 5 && ('.' in line || '!' in line || '?' in line))
  }

  /** The stripped lines that are substantial, in order. */
  function KeepLines(lines: seq<string>): (kept: seq<string>)
    ensures forall i | 0 <= i < |kept| :: Substantial(kept[i]) && Trimmed(kept[i])
  {
    if |lines| == 0 then []
    else
      var line := Strip(lines[0]);
      var rest := KeepLines(lines[1..]);
      if Substantial(line) then [line] + rest else rest
  }

  /** Positions one further on: increasing stays increasing, and `i` is
      listed exactly when `i - 1` was. */
  lemma ShiftIndices(rest: seq<nat>) returns (sh: seq<nat>)
    requires forall k, m | 0 <= k < m < |rest| :: rest[k] < rest[m]
    ensures |sh| == |rest| && forall k | 0 <= k < |sh| :: sh[k] == rest[k] + 1
    ensures forall k, m | 0 <= k < m < |sh| :: sh[k] < sh[m]
    ensures forall i: nat | i >= 1 :: i in sh <==> (i - 1) in rest
    ensures 0 !in sh
  {
    sh := seq(|rest|, k requires 0 <= k < |rest| => rest[k] + 1);
    forall i: nat | i >= 1
      ensures i in sh <==> (i - 1) in rest
    {
      if i in sh {
        var k :| 0 <= k < |sh| && sh[k] == i;
        assert rest[k] == i - 1;
      }
      if (i - 1) in rest {
        var k :| 0 <= k < |rest| && rest[k] == i - 1;
        assert sh[k] == i;
      }
    }
  }

  /** `f` applied to every element, in place. */
  ghost function MapAll<A, B>(f: A -> B, xs: seq<A>): (ys: seq<B>)
    ensures |ys| == |xs|
  {
    seq(|xs|, i requires 0 <= i < |xs| => f(xs[i]))
  }

  /** Mapping, then dropping the first element, is dropping it, then mapping. */
  lemma MapAllTail<A, B>(f: A -> B, xs: seq<A>)
    requires |xs| > 0
    ensures MapAll(f, xs)[0] == f(xs[0])
    ensures MapAll(f, xs)[1..] == MapAll(f, xs[1..])
  {
    assert forall i | 0 <= i < |xs| - 1 :: MapAll(f, xs)[1..][i] == MapAll(f, xs[1..])[i];
  }

  /** `kept` is the order-preserving filter of `st` by `Substantial`, and `idx`
      lists, increasing, the positions kept. */
  ghost predicate FiltersBy(st: seq<string>, kept: seq<string>, idx: seq<nat>) {
    && |idx| == |kept|
    && (forall k | 0 <= k < |idx| :: idx[k] < |st| && kept[k] == st[idx[k]])
    && (forall k, m | 0 <= k < m < |idx| :: idx[k] < idx[m])
    && (forall i | 0 <= i < |st| :: i in idx <==> Substantial(st[i]))
  }

  /** Putting position 0 in front of increasing positive positions keeps them
      increasing and adds no other position. */
  lemma PrependZero(sh: seq<nat>)
    requires forall k | 0 <= k < |sh| :: sh[k] >= 1
    requires forall k, m | 0 <= k < m < |sh| :: sh[k] < sh[m]
    ensures forall k, m | 0 <= k < m < |[0] + sh| :: ([0] + sh)[k] < ([0] + sh)[m]
    ensures forall i: nat | i >= 1 :: i in [0] + sh <==> i in sh
  {
    var z := [0] + sh;
    forall k, m | 0 <= k < m < |z|
      ensures z[k] < z[m]
    {
      assert z[m] == sh[m - 1];
      if k > 0 {
        assert z[k] == sh[k - 1];
      }
    }
  }

  /** A first line that is kept goes in front, at position 0. */
  lemma FilterKeep(st: seq<string>, kept: seq<string>, rest: seq<nat>) returns (idx: seq<nat>)
    requires |st| > 0 && Substantial(st[0])
    requires FiltersBy(st[1..], kept, rest)
    ensures FiltersBy(st, [st[0]] + kept, idx)
  {
    var sh := ShiftIndices(rest);
    idx := [0] + sh;
    KeepEntries(st, kept, rest, sh);
    PrependZero(sh);
    KeepMembers(st, rest, sh);
  }

  /** Each kept entry, shifted past the new first line, still names its line. */
  lemma KeepEntries(st: seq<string>, kept: seq<string>, rest: seq<nat>, sh: seq<nat>)
    requires |st| > 0 && |rest| == |kept| == |sh|
    requires forall k | 0 <= k < |rest| :: rest[k] < |st| - 1 && kept[k] == st[1..][rest[k]]
    requires forall k | 0 <= k < |sh| :: sh[k] == rest[k] + 1
    ensures forall k | 0 <= k < |[0] + sh| :: ([0] + sh)[k] < |st| && ([st[0]] + kept)[k] == st[([0] + sh)[k]]
  {
    var idx := [0] + sh;
    var out := [st[0]] + kept;
    forall k | 0 <= k < |idx|
      ensures idx[k] < |st| && out[k] == st[idx[k]]
    {
      if k > 0 {
        assert idx[k] == sh[k - 1] == rest[k - 1] + 1 && out[k] == kept[k - 1];
      }
    }
  }

  /** After a kept first line, a position is listed exactly when its line is substantial. */
  lemma KeepMembers(st: seq<string>, rest: seq<nat>, sh: seq<nat>)
    requires |st| > 0 && Substantial(st[0])
    requires forall i | 0 <= i < |st| - 1 :: i in rest <==> Substantial(st[1..][i])
    requires forall i: nat | i >= 1 :: i in [0] + sh <==> i in sh
    requires forall i: nat | i >= 1 :: i in sh <==> (i - 1) in rest
    ensures forall i | 0 <= i < |st| :: i in [0] + sh <==> Substantial(st[i])
  {
    forall i | 0 <= i < |st|
      ensures i in [0] + sh <==> Substantial(st[i])
    {
      if i > 0 {
        assert st[i] == st[1..][i - 1];
      } else {
        assert ([0] + sh)[0] == 0;
      }
    }
  }

  /** A first line that is dropped leaves the kept lines as they are. */
  lemma FilterDrop(st: seq<string>, kept: seq<string>, rest: seq<nat>) returns (idx: seq<nat>)
    requires |st| > 0 && !Substantial(st[0])
    requires FiltersBy(st[1..], kept, rest)
    ensures FiltersBy(st, kept, idx)
  {
    idx := ShiftIndices(rest);
    assert forall i | 1 <= i < |st| :: st[i] == st[1..][i - 1];
  }

  /** `KeepLines` is the order-preserving filter of the stripped lines by
      `Substantial`: `idx` lists, increasing, the positions of the lines kept,
      and a position is listed exactly when its stripped line is substantial. */
  lemma KeepLinesFilter(lines: seq<string>) returns (idx: seq<nat>)
    ensures |idx| == |KeepLines(lines)|
    ensures forall k | 0 <= k < |idx| :: idx[k] < |lines| && KeepLines(lines)[k] == Strip(lines[idx[k]])
    ensures forall k, m | 0 <= k < m < |idx| :: idx[k] < idx[m]
    ensures forall i | 0 <= i < |lines| :: i in idx <==> Substantial(Strip(lines[i]))
  {
    idx := KeepLinesIndices(lines);
  }

  /** The induction behind `KeepLinesFilter`, one line at a time. */
  lemma {:induction false} KeepLinesIndices(lines: seq<string>) returns (idx: seq<nat>)
    ensures FiltersBy(MapAll(Strip, lines), KeepLines(lines), idx)
    decreases |lines|
  {
    if |lines| == 0 {
      idx := [];
    } else {
      var rest := KeepLinesIndices(lines[1..]);
      var st := MapAll(Strip, lines);
      var kept := KeepLines(lines[1..]);
      MapAllTail(Strip, lines);
      if Substantial(st[0]) {
        assert KeepLines(lines) == [st[0]] + kept;
        idx := FilterKeep(st, kept, rest);
      } else {
        assert KeepLines(lines) == kept;
        idx := FilterDrop(st, kept, rest);
      }
    }
  }

  /** `_clean_extracted_text`: the empty text stays empty, and what comes out
      has no whitespace at either end and only single spaces inside. */
  function CleanExtractedText(text: string): (r: string)
    ensures text == [] ==> r == []
    ensures Tidy(r)
  {
    if text == [] then []
    else
      var s := Scrub(RemoveBoilerplate(Collapse(text)));
      Squish(Join(KeepLines(Split(s, '\n')), " "))
  }

  /** A single-spaced text is one line. */
  lemma SingleSpacedOneLine(s: string)
    requires SingleSpaced(s)
    ensures '\n' !in s
  {
    if '\n' in s {
      var i :| 0 <= i < |s| && s[i] == '\n';
      assert IsSpace(s[i]);
    }
  }

  /** Collapsing, boilerplate removal and scrubbing leave a single line. */
  lemma PreparedIsOneLine(text: string)
    ensures '\n' !in Scrub(RemoveBoilerplate(Collapse(text)))
  {
    var c := Collapse(text);
    SingleSpacedOneLine(c);
    BoilerplateOneLine(c);
    var b := RemoveBoilerplate(c);
    assert '\n' !in ".- ";
    assert forall x | x in Scrub(b) :: x in b || x in ".- ";
  }

  /** Removing boilerplate from one line leaves one line. */
  lemma BoilerplateOneLine(c: string)
    requires '\n' !in c
    ensures '\n' !in RemoveBoilerplate(c)
  {
    BoilerplateCut(c);
    PrefixKeepsOut('\n', c, |RemoveBoilerplate(c)|);
  }

  /** The line filter and final normalisation applied to one line. */
  lemma OneLineFiltered(s: string)
    requires '\n' !in s
    ensures var r := Squish(Join(KeepLines(Split(s, '\n')), " "));
      && r == (if Substantial(Strip(s)) then Squish(Strip(s)) else [])
      && (r != [] <==> Substantial(Strip(s)))
  {
    assert Split(s, '\n') == [s];
    var line := Strip(s);
    if Substantial(line) {
      assert KeepLines([s]) == [line];
      assert !IsBlank(line) by {
        assert line[0] in line;
      }
    } else {
      assert KeepLines([s]) == [];
    }
  }

  /** Because whitespace is collapsed first, the text is one line by the time
      it is split, so the line filter decides about the whole text at once: it
      is kept, normalised, when its stripped form is substantial, and dropped
      otherwise. */
  lemma CleanTextVerdict(text: string)
    requires text != []
    ensures var s := Scrub(RemoveBoilerplate(Collapse(text)));
      && CleanExtractedText(text) == (if Substantial(Strip(s)) then Squish(Strip(s)) else [])
      && (CleanExtractedText(text) != [] <==> Substantial(Strip(s)))
  {
    PreparedIsOneLine(text);
    OneLineFiltered(Scrub(RemoveBoilerplate(Collapse(text))));
  }

  // ----------------------------------------------------------------- title

  const NewsSuffix := DashSuffix("News", true)
  const DotComSuffix := DashSuffix(".com", true)
  const HomeSuffix := DashSuffix("Home", false)
  const DotRun := Run('.', 2, "")
  const Untitled := "Untitled Article"

  /** The four site-name suffix patterns, applied in order: they only delete,
      and no `|` is left. */
  function StripSuffixes(t: string): (r: string)
    ensures forall x | x in r :: x in t
    ensures '|' !in r
  {
    var a := Sub(t, NewsSuffix);
    var b := Sub(a, PipeSuffix);
    var c := Sub(b, DotComSuffix);
    SubChars(t, NewsSuffix);
    SubChars(a, PipeSuffix);
    SubChars(b, DotComSuffix);
    SubChars(c, HomeSuffix);
    PipeGone(a);
    SubKeepsOut(b, DotComSuffix, '|');
    SubKeepsOut(c, HomeSuffix, '|');
    Sub(c, HomeSuffix)
  }

  /** A title longer than 100 characters keeps 97 and gains "...". */
  function ShortTitle(t: string): (r: string)
    ensures |r| <= 100
    ensures |t| <= 100 ==> r == t
    ensures |t| > 100 ==> |r| == 100 && r[..97] == t[..97] && r[97..] == "..."
  {
    if |t| > 100 then t[..97] + "..." else t
  }

  /** `_clean_title`: never empty, at most 100 characters, and the fallback
      title when there was no title to start with. */
  function CleanTitle(title: Option<string>): (r: string)
    ensures r != [] && |r| <= 100
    ensures title.None? || title.value == [] ==> r == Untitled
  {
    if title.None? || title.value == [] then Untitled
    else
      var t := ShortTitle(Sub(Squish(StripSuffixes(title.value)), DotRun));
      if t == [] then Untitled else t
  }

  /** Without a `|`, the pipe pattern never matches. */
  lemma {:induction false} NoPipeUnchanged(s: string)
    requires '|' !in s
    ensures Sub(s, PipeSuffix) == s
    decreases |s|
  {
    if |s| > 0 {
      PipeMatchAt(s);
      NoPipeUnchanged(s[1..]);
    }
  }

  /** Without a `-`, a dash-suffix pattern never matches. */
  lemma {:induction false} NoDashUnchanged(s: string, p: Pattern)
    requires p.DashSuffix? && '-' !in s
    ensures Sub(s, p) == s
    decreases |s|
  {
    if |s| > 0 {
      assert MatchAt(s, p).None? by {
        var i := SpanSpace(s, 0);
        if i < |s| {
          assert s[i] != '-';
        }
      }
      NoDashUnchanged(s[1..], p);
      assert s == [s[0]] + s[1..];
    }
  }

  /** Without two adjacent dots, the dot-run pattern never matches. */
  lemma {:induction false} NoDotPairUnchanged(s: string)
    requires NoDotPair(s)
    ensures Sub(s, DotRun) == s
    decreases |s|
  {
    if |s| > 0 {
      assert |s| >= 2 ==> !(s[0] == '.' && s[1] == '.');
      assert NoDotPair(s[1..]) by {
        forall i, j | 0 <= i < j < |s| - 1 && j == i + 1
          ensures !(s[1..][i] == '.' && s[1..][j] == '.')
        {
          assert s[1..][i] == s[i + 1] && s[1..][j] == s[j + 1];
        }
      }
      NoDotPairUnchanged(s[1..]);
      assert s == [s[0]] + s[1..];
    }
  }

  /** A title with nothing for the patterns to remove, already normalised,
      survives cleaning: it comes back whole, or cut to 97 characters and
      "..." when it is longer than 100. */
  lemma PlainTitleKept(t: string)
    requires t != [] && Tidy(t)
    requires '-' !in t && '|' !in t && NoDotPair(t)
    ensures CleanTitle(Some(t)) == ShortTitle(t)
    ensures |t| <= 100 ==> CleanTitle(Some(t)) == t
  {
    TitleStepsFix(t);
  }

  /** Each cleaning step leaves such a title as it is. */
  lemma TitleStepsFix(t: string)
    requires Tidy(t)
    requires '-' !in t && '|' !in t && NoDotPair(t)
    ensures Sub(Squish(StripSuffixes(t)), DotRun) == t
  {
    SuffixesFix(t);
    SquishFixesTidy(t);
    NoDotPairUnchanged(t);
  }

  /** No suffix pattern matches a text without `-` and `|`. */
  lemma SuffixesFix(t: string)
    requires '-' !in t && '|' !in t
    ensures StripSuffixes(t) == t
  {
    NoDashUnchanged(t, NewsSuffix);
    NoPipeUnchanged(t);
    NoDashUnchanged(t, DotComSuffix);
    NoDashUnchanged(t, HomeSuffix);
  }

  /** A line-cutting pattern leaves a prefix of a one-line text. */
  lemma CutIsPrefix(s: string, p: Pattern)
    requires CutsLine(p) && '\n' !in s
    ensures |Sub(s, p)| <= |s| && Sub(s, p) == s[..|Sub(s, p)|]
  {
    CutAtFirstMatch(s, p);
  }

  /** The first `|` of a prefix that holds one is the first `|` of the text. */
  lemma IndexOfPrefix(s: string, n: nat, c: char)
    requires n <= |s| && c in s[..n]
    ensures IndexOf(s[..n], c) == IndexOf(s, c)
  {
    var a := IndexOf(s[..n], c);
    assert s[..n][..a] == s[..a];
  }

  /** Where a dash pattern matches, the first visible character is `-`. */
  lemma DashMatchStart(s: string, p: Pattern)
    requires p.DashSuffix? && MatchAt(s, p).Some?
    ensures SpanSpace(s, 0) < |s| && s[SpanSpace(s, 0)] == '-'
  {
  }

  /** A whitespace run that reaches a `|` ends at it. */
  lemma BlankRunEndsAtPipe(v: string, m: nat, k: nat)
    requires m <= k < |v| && v[k] == '|'
    requires forall q | m <= q < k :: IsSpace(v[q])
    ensures SpanSpace(v[m..], 0) == k - m && v[m..][k - m] == '|'
  {
  }

  /** A dash pattern that first matches no later than the first `|` matches
      before the whitespace in front of that `|`. */
  lemma DashBeforePipe(v: string, p: Pattern)
    requires p.DashSuffix? && '|' in v
    requires FirstMatch(v, p) <= IndexOf(v, '|')
    ensures FirstMatch(v, p) <= |TrimEnd(v[..IndexOf(v, '|')])|
  {
    var m := FirstMatch(v, p);
    var k := IndexOf(v, '|');
    var t := |TrimEnd(v[..k])|;
    if m > t {
      FirstMatchFacts(v, p);
      DashMatchStart(v[m..], p);
      forall q | m <= q < k ensures IsSpace(v[q]) {
        assert v[..k][t..][q - t] == v[q];
      }
      BlankRunEndsAtPipe(v, m, k);
    }
  }

  /** A line-cutting pattern run on a prefix of a one-line text leaves a
      shorter prefix of it. */
  lemma CutOfPrefix(v: string, b: string, p: Pattern)
    requires CutsLine(p) && '\n' !in v
    requires |b| <= |v| && b == v[..|b|]
    ensures |Sub(b, p)| <= |b| && Sub(b, p) == v[..|Sub(b, p)|]
  {
    PrefixKeepsOut('\n', v, |b|);
    CutAtFirstMatch(b, p);
  }

  /** On one line holding a `|`, the pipe pattern keeps the text before the
      first `|`, stripped of its trailing whitespace. */
  lemma PipeCut(a: string)
    requires '\n' !in a && '|' in a
    ensures Sub(a, PipeSuffix) == TrimEnd(a[..IndexOf(a, '|')])
  {
    CutAtFirstMatch(a, PipeSuffix);
    PipeFirstMatch(a);
  }

  /** The pipe pattern on a prefix that still holds the first `|` cuts it
      right before the whitespace in front of that `|`. */
  lemma PipeCutOfPrefix(v: string, m: nat)
    requires '\n' !in v && '|' in v && IndexOf(v, '|') < m <= |v|
    ensures Sub(v[..m], PipeSuffix) == TrimEnd(v[..IndexOf(v, '|')])
  {
    var k := IndexOf(v, '|');
    var a := v[..m];
    assert a[k] == '|';
    IndexOfPrefix(v, m, '|');
    PrefixKeepsOut('\n', v, m);
    PipeCut(a);
    assert a[..k] == v[..k];
  }

  /** A dash pattern followed by the pipe pattern, on one line holding a `|`,
      leaves a prefix that stops before the whitespace in front of that `|`. */
  lemma DashThenPipe(v: string, p: Pattern)
    requires p.DashSuffix? && '\n' !in v && '|' in v
    ensures var b := Sub(Sub(v, p), PipeSuffix);
      |b| <= |TrimEnd(v[..IndexOf(v, '|')])| && b == v[..|b|]
  {
    var k := IndexOf(v, '|');
    var m := FirstMatch(v, p);
    CutAtFirstMatch(v, p);
    if m > k {
      PipeCutOfPrefix(v, m);
      var t := TrimEnd(v[..k]);
      assert t == v[..k][..|t|] == v[..|t|];
    } else {
      PrefixKeepsOut('|', v[..k], m);
      assert v[..k][..m] == v[..m];
      NoPipeUnchanged(v[..m]);
      DashBeforePipe(v, p);
    }
  }

  /** On a one-line title holding a `|`, the suffix patterns remove at least
      everything from the first `|` on, together with the whitespace before it. */
  lemma PipeCutsTitle(v: string)
    requires '\n' !in v && '|' in v
    ensures var k := IndexOf(v, '|');
      var r := StripSuffixes(v);
      |r| <= |TrimEnd(v[..k])| && r == TrimEnd(v[..k])[..|r|]
  {
    var k := IndexOf(v, '|');
    DashThenPipe(v, NewsSuffix);
    var b := Sub(Sub(v, NewsSuffix), PipeSuffix);
    var c := Sub(b, DotComSuffix);
    CutOfPrefix(v, b, DotComSuffix);
    CutOfPrefix(v, c, HomeSuffix);
    var r := Sub(c, HomeSuffix);
    assert r == StripSuffixes(v);
    PrefixOfTrimmed(v, k, r);
  }

  /** A prefix of the text no longer than the stripped text before position
      `k` is a prefix of that stripped text. */
  lemma PrefixOfTrimmed(v: string, k: nat, r: string)
    requires k <= |v| && |r| <= |TrimEnd(v[..k])| && r == v[..|r|]
    ensures r == TrimEnd(v[..k])[..|r|]
  {
    var t := |TrimEnd(v[..k])|;
    assert TrimEnd(v[..k]) == v[..k][..t];
    assert v[..k][..t][..|r|] == v[..|r|];
  }

  /** Normalising, removing dot runs and shortening bring in no visible
      character other than the dots of the ellipsis. */
  lemma TidyingKeepsOut(d: string, c: char)
    requires !IsSpace(c) && c != '.' && c !in d
    ensures c !in ShortTitle(Sub(Squish(d), DotRun))
  {
    var q := Squish(d);
    SquishKeepsWords(d);
    VisibleInWords(d, c);
    VisibleInWords(q, c);
    var u := Sub(q, DotRun);
    SubKeepsOut(q, DotRun, c);
    if |u| > 100 {
      PrefixKeepsOut(c, u, 97);
    }
  }

  /** No cleaned title holds a `|`: the pipe pattern deletes every one, and
      nothing after it brings one back. */
  lemma CleanTitleNoPipe(title: Option<string>)
    ensures '|' !in CleanTitle(title)
  {
    if title.Some? && title.value != [] {
      var d := StripSuffixes(title.value);
      assert '|' !in d;
      TidyingKeepsOut(d, '|');
      assert CleanTitle(title) in {Untitled, ShortTitle(Sub(Squish(d), DotRun))};
    }
  }

  /** No two dots next to each other. */
  ghost predicate NoDotPair(s: string) {
    forall i, j | 0 <= i < j < |s| && j == i + 1 :: !(s[i] == '.' && s[j] == '.')
  }

  /** Deleting runs of two or more dots leaves no two dots next to each other,
      and a dot starts the result only where one started the text. */
  lemma {:induction false} DotRunsGone(s: string)
    ensures NoDotPair(Sub(s, DotRun))
    ensures |Sub(s, DotRun)| > 0 && Sub(s, DotRun)[0] == '.' ==> |s| > 0 && s[0] == '.'
    decreases |s|
  {
    if |s| > 0 {
      match MatchAt(s, DotRun)
      case Some(m) =>
        DotRunsGone(s[m.end..]);
        assert m.end < |s| ==> s[m.end..][0] != '.';
      case None =>
        DotRunsGone(s[1..]);
        var r := Sub(s, DotRun);
        var rest := Sub(s[1..], DotRun);
        assert r == [s[0]] + rest;
        if s[0] == '.' && |s| > 1 {
          assert s[1] != '.';
        }
        forall i, j | 0 <= i < j < |r| && j == i + 1 ensures !(r[i] == '.' && r[j] == '.') {
          if i > 0 {
            assert r[i] == rest[i - 1] && r[j] == rest[j - 1];
          } else {
            assert r[j] == rest[0];
          }
        }
    }
  }

  /** A cleaned title never shows two dots in a row, except in the "..." that
      marks a cut title. */
  lemma CleanTitleDots(title: Option<string>)
    ensures var r := CleanTitle(title);
      || NoDotPair(r)
      || (|r| == 100 && r[97..] == "..." && NoDotPair(r[..97]))
  {
    if title.Some? && title.value != [] {
      var u := Sub(Squish(StripSuffixes(title.value)), DotRun);
      DotRunsGone(Squish(StripSuffixes(title.value)));
      var r := CleanTitle(title);
      if |u| > 100 {
        assert r[..97] == u[..97];
        assert NoDotPair(r[..97]) by {
          forall i, j | 0 <= i < j < 97 && j == i + 1 ensures !(r[..97][i] == '.' && r[..97][j] == '.') {
            assert r[..97][i] == u[i] && r[..97][j] == u[j];
          }
        }
      }
    }
  }
}
