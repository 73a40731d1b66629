/** The pure part of the Flask backend's scraper (backend/utils/scrape.py):
    the `_strip` normaliser, the two clean-up substitutions run on the
    article text, and the choice of title. The page fetch, trafilatura,
    readability, BeautifulSoup and `urlparse` are outside the model; what
    they produce is given as an `Extraction`. */
module BackendScrape {
  import opened Results
  import opened Text
  import opened Regex

  /** `_strip`: collapse every whitespace run to one space and strip the ends;
      `None` and the empty string both give the empty string. */
  function StripText(s: Option<string>): (r: string)
    ensures s.None? || s.value == [] ==> r == []
    ensures Tidy(r)
    ensures Words(r) == Words(OrElse(s, []))
    ensures r == Join(SplitWs(OrElse(s, [])), " ")
  {
    SquishKeepsWords(OrElse(s, []));
    SquishIsJoin(OrElse(s, []));
    Squish(OrElse(s, []))
  }

  /** Normalising a normalised text changes nothing. */
  lemma StripTextIdempotent(s: Option<string>)
    ensures StripText(Some(StripText(s))) == StripText(s)
  {
    SquishIdempotent(OrElse(s, []));
  }

  /** No two whitespace characters next to each other. */
  ghost predicate NoSpacePair(s: string) {
    forall i, j | 0 <= i < j < |s| && j == i + 1 :: !(IsSpace(s[i]) && IsSpace(s[j]))
  }

  /** Starts with a visible character, or is empty. */
  predicate StartsVisible(s: string) {
    |s| == 0 || !IsSpace(s[0])
  }

  /** The clean-up: `(\n\s*){2,}` to a blank line, then `\s{2,}` to a space. */
  function PostClean(s: string): (r: string)
    ensures NoSpacePair(r)
    ensures Words(r) == Words(s)
  {
    NewlineRunSubsumed(s);
    SpaceRunGone(s);
    SpaceRunKeepsWords(s);
    Sub(Sub(s, NewlineRun), SpaceRun)
  }

  // ----------------------------------------------------------- \s{2,} -> ' '

  /** A whitespace prefix followed by a visible character is one run. */
  lemma SpanOfBlankPrefix(w: string, t: string)
    requires IsBlank(w) && StartsVisible(t)
    ensures SpanSpace(w + t, 0) == |w|
  {
    var s := w + t;
    forall k | 0 <= k < |w|
      ensures IsSpace(s[k])
    {
      assert s[k] == w[k];
    }
    if |t| > 0 {
      assert s[|w|] == t[0];
    }
  }

  /** The space-run pattern on a whitespace run: two or more characters become
      one space, a single one stays. */
  lemma SpaceRunHead(w: string, t: string)
    requires IsBlank(w) && |w| >= 1 && StartsVisible(t)
    ensures Sub(w + t, SpaceRun) == (if |w| >= 2 then " " else w) + Sub(t, SpaceRun)
  {
    SpanOfBlankPrefix(w, t);
    var s := w + t;
    assert s[|w|..] == t;
    if |w| == 1 {
      assert s[1..] == t;
    }
  }

  /** After the space-run pattern, no two whitespace characters are adjacent,
      and the result starts with whitespace only where the text did. */
  lemma {:induction false} SpaceRunGone(s: string)
    ensures NoSpacePair(Sub(s, SpaceRun))
    ensures !StartsVisible(Sub(s, SpaceRun)) ==> !StartsVisible(s)
    decreases |s|
  {
    if |s| > 0 {
      var r := Sub(s, SpaceRun);
      match MatchAt(s, SpaceRun)
      case Some(m) =>
        SpaceRunGone(s[m.end..]);
        var rest := Sub(s[m.end..], SpaceRun);
        assert r == " " + rest;
        assert StartsVisible(rest) by {
          assert m.end < |s| ==> s[m.end..][0] == s[m.end];
        }
        forall i, j | 0 <= i < j < |r| && j == i + 1 ensures !(IsSpace(r[i]) && IsSpace(r[j])) {
          if i > 0 {
            assert r[i] == rest[i - 1] && r[j] == rest[j - 1];
          } else {
            assert r[j] == rest[0];
          }
        }
      case None =>
        SpaceRunGone(s[1..]);
        var rest := Sub(s[1..], SpaceRun);
        assert r == [s[0]] + rest;
        if IsSpace(s[0]) && |s| > 1 {
          assert !IsSpace(s[1]);
        }
        forall i, j | 0 <= i < j < |r| && j == i + 1 ensures !(IsSpace(r[i]) && IsSpace(r[j])) {
          if i > 0 {
            assert r[i] == rest[i - 1] && r[j] == rest[j - 1];
          } else {
            assert r[j] == rest[0];
          }
        }
    }
  }

  /** The space-run pattern leaves a text without adjacent whitespace alone. */
  lemma {:induction false} SpaceRunFixes(s: string)
    requires NoSpacePair(s)
    ensures Sub(s, SpaceRun) == s
    decreases |s|
  {
    if |s| > 0 {
      if |s| > 1 {
        assert !(IsSpace(s[0]) && IsSpace(s[1]));
      }
      assert MatchAt(s, SpaceRun).None?;
      assert NoSpacePair(s[1..]) by {
        forall i, j | 0 <= i < j < |s[1..]| && j == i + 1 ensures !(IsSpace(s[1..][i]) && IsSpace(s[1..][j])) {
          assert s[1..][i] == s[i + 1] && s[1..][j] == s[j + 1];
        }
      }
      SpaceRunFixes(s[1..]);
    }
  }

  /** The space-run pattern only replaces whitespace with whitespace, so the
      visible characters stay, in order. */
  lemma {:induction false} SpaceRunKeepsWords(s: string)
    ensures Words(Sub(s, SpaceRun)) == Words(s)
    decreases |s|
  {
    if |s| > 0 {
      match MatchAt(s, SpaceRun)
      case Some(m) =>
        SpaceRunKeepsWords(s[m.end..]);
        assert s == s[..m.end] + s[m.end..];
        WordsAppend(s[..m.end], s[m.end..]);
        WordsOfBlank(s[..m.end]);
        WordsAppend(" ", Sub(s[m.end..], SpaceRun));
      case None =>
        SpaceRunKeepsWords(s[1..]);
        assert s == [s[0]] + s[1..];
        WordsAppend([s[0]], s[1..]);
        WordsAppend([s[0]], Sub(s[1..], SpaceRun));
    }
  }

  // ----------------------------------------------------- (\n\s*){2,} -> \n\n

  /** At a visible character the blank-line pattern copies it. */
  lemma NewlineRunVisible(x: string)
    requires |x| > 0 && !IsSpace(x[0])
    ensures Sub(x, NewlineRun) == [x[0]] + Sub(x[1..], NewlineRun)
  {
  }

  /** Inside a whitespace run the scan stays in the same run. */
  lemma SpanSpaceStep(s: string)
    requires |s| > 0 && IsSpace(s[0])
    ensures SpanSpace(s[1..], 0) == SpanSpace(s, 0) - 1
    ensures s[1..][SpanSpace(s, 0) - 1..] == s[SpanSpace(s, 0)..]
  {
    var e := SpanSpace(s, 0);
    var e1 := SpanSpace(s[1..], 0);
  }

  /** Where the blank-line pattern matches, it takes the whole whitespace run,
      which is at least two characters long. */
  lemma NewlineRunMatch(s: string)
    requires MatchAt(s, NewlineRun).Some?
    ensures MatchAt(s, NewlineRun).value == Match(SpanSpace(s, 0), "\n\n")
    ensures SpanSpace(s, 0) >= 2
  {
    assert |s[1..SpanSpace(s, 0)]| > 0;
  }

  /** Where the blank-line pattern does not match, it copies the first
      character. */
  lemma NewlineRunMiss(s: string)
    requires |s| > 0 && MatchAt(s, NewlineRun).None?
    ensures Sub(s, NewlineRun) == [s[0]] + Sub(s[1..], NewlineRun)
  {
  }

  /** One step of the scan through a whitespace run the blank-line pattern
      does not match at: the first character is copied in front of what the
      rest of the run becomes. */
  lemma NewlineRunStep(s: string, w1: string)
    requires |s| > 0 && IsSpace(s[0]) && MatchAt(s, NewlineRun).None?
    requires Sub(s[1..], NewlineRun) == w1 + Sub(s[1..][SpanSpace(s[1..], 0)..], NewlineRun)
    ensures Sub(s, NewlineRun) == ([s[0]] + w1) + Sub(s[SpanSpace(s, 0)..], NewlineRun)
  {
    NewlineRunMiss(s);
    SpanSpaceStep(s);
    var rest := Sub(s[SpanSpace(s, 0)..], NewlineRun);
    assert Sub(s[1..], NewlineRun) == w1 + rest;
    assert [s[0]] + (w1 + rest) == ([s[0]] + w1) + rest;
  }

  /** The blank-line pattern turns the whitespace run at the start of a text
      into whitespace `w` that is a single character exactly when the run was. */
  lemma {:induction false} NewlineRunHead(s: string) returns (w: string)
    requires |s| > 0 && IsSpace(s[0])
    ensures Sub(s, NewlineRun) == w + Sub(s[SpanSpace(s, 0)..], NewlineRun)
    ensures IsBlank(w) && |w| >= 1
    ensures |w| >= 2 <==> SpanSpace(s, 0) >= 2
    ensures |w| == 1 ==> w == [s[0]]
    decreases |s|
  {
    var e := SpanSpace(s, 0);
    if MatchAt(s, NewlineRun).Some? {
      NewlineRunMatch(s);
      w := "\n\n";
    } else {
      if e == 1 {
        NewlineRunMiss(s);
        w := [s[0]];
      } else {
        var w1 := NewlineRunHead(s[1..]);
        NewlineRunStep(s, w1);
        BlankAppend([s[0]], w1);
        w := [s[0]] + w1;
      }
    }
  }

  /** The blank-line pattern changes nothing the space-run pattern would not
      change anyway: a run it rewrites is two or more characters before and
      after, so both end up as one space. */
  lemma {:induction false} NewlineRunSubsumed(s: string)
    ensures Sub(Sub(s, NewlineRun), SpaceRun) == Sub(s, SpaceRun)
    decreases |s|
  {
    if |s| > 0 {
      if !IsSpace(s[0]) {
        NewlineRunVisible(s);
        NewlineRunSubsumed(s[1..]);
        SpaceRunHead2(s[0], Sub(s[1..], NewlineRun));
        SpaceRunHead2(s[0], s[1..]);
      } else {
        var e := SpanSpace(s, 0);
        var rest := s[e..];
        var w := NewlineRunHead(s);
        NewlineRunSubsumed(rest);
        assert StartsVisible(rest);
        VisibleStaysVisible(rest);
        SpaceRunHead(w, Sub(rest, NewlineRun));
        assert s == s[..e] + rest;
        assert IsBlank(s[..e]) by {
          assert forall x | x in s[..e] :: IsSpace(x);
        }
        SpaceRunHead(s[..e], rest);
        if e == 1 {
          assert s[..e] == [s[0]];
        }
      }
    }
  }

  /** The space-run pattern copies a visible first character. */
  lemma SpaceRunHead2(c: char, t: string)
    requires !IsSpace(c)
    ensures Sub([c] + t, SpaceRun) == [c] + Sub(t, SpaceRun)
  {
    assert ([c] + t)[1..] == t;
  }

  /** The blank-line pattern keeps a visible first character first. */
  lemma VisibleStaysVisible(x: string)
    requires StartsVisible(x)
    ensures StartsVisible(Sub(x, NewlineRun))
  {
    if |x| > 0 {
      NewlineRunVisible(x);
    }
  }

  /** The clean-up leaves no two whitespace characters next to each other, and
      keeps the visible characters in order. */
  lemma PostCleanFacts(s: string)
    ensures NoSpacePair(PostClean(s))
    ensures PostClean(s) == Sub(s, SpaceRun)
    ensures Words(PostClean(s)) == Words(s)
  {
    NewlineRunSubsumed(s);
  }

  /** On a normalised text, the clean-up changes nothing. */
  lemma PostCleanOfTidy(s: string)
    requires Tidy(s)
    ensures PostClean(s) == s
  {
    NewlineRunSubsumed(s);
    SpaceRunFixes(s);
  }

  // --------------------------------------------------------------- article

  /** What the fetch and the extraction libraries produced for one URL:
      trafilatura's text (`None` or empty when it found nothing), the text of
      the page's `<title>` element if there is one, the URL's host, and the
      readability fallback's short title and flattened text. */
  datatype Extraction = Extraction(
    extracted: Option<string>,
    titleTag: Option<string>,
    netloc: string,
    shortTitle: Option<string>,
    readableText: string)

  datatype Article = Article(title: string, text: string)

  /** Trafilatura found text. */
  predicate Found(x: Extraction) {
    x.extracted.Some? && x.extracted.value != []
  }

  /** The title before the fall-back to the URL: on the trafilatura path there
      always is one, the `<title>` text normalised or else the host; otherwise
      it is readability's short title, which may be missing. */
  function PageTitle(x: Extraction): (r: Option<string>)
    ensures Found(x) ==> r.Some?
    ensures Found(x) && x.titleTag.Some? ==> r == Some(StripText(x.titleTag))
    ensures Found(x) && x.titleTag.Some? ==> Tidy(r.value) && Words(r.value) == Words(x.titleTag.value)
    ensures Found(x) && x.titleTag.None? ==> r == Some(x.netloc)
    ensures !Found(x) ==> r == x.shortTitle
  {
    if !Found(x) then x.shortTitle
    else if x.titleTag.Some? then Some(StripText(x.titleTag))
    else Some(x.netloc)
  }

  /** `scrape_and_clean` after the fetch: the trafilatura text normalised, or
      the readability text, cleaned up; the title, or the URL when the title
      is missing or empty. */
  function BackendArticle(url: string, x: Extraction): (a: Article)
    ensures a.title == OrElse(PageTitle(x), url)
    ensures a.title == [] ==> url == []
    ensures PageTitle(x).None? || PageTitle(x).value == [] ==> a.title == url
    ensures NoSpacePair(a.text)
    ensures Words(a.text) == Words(if Found(x) then x.extracted.value else x.readableText)
    ensures Found(x) ==> a.text == StripText(x.extracted) && Tidy(a.text)
    ensures !Found(x) ==> a.text == PostClean(x.readableText)
  {
    var text := if Found(x) then StripText(x.extracted) else x.readableText;
    PostCleanFacts(text);
    var a := Article(OrElse(PageTitle(x), url), PostClean(text));
    if Found(x) then PostCleanOfTidy(text); a else a
  }
}
