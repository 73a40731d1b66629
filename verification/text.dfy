/** Python string primitives the podcast code relies on: whitespace as
    `str.isspace` and `\s` see it, `strip`, the `\s+` collapse, ASCII case
    mapping, case-insensitive search, `split` and `join`. */
module Text {
  import opened Results

  /** The characters for which Python's `str.isspace()` holds: the class `\s`
      matches in a `str` pattern and the set `str.strip()` removes. */
  const SpaceChars: set<char> := {' ', '\t', '\n', '\U{0B}', '\U{0C}', '\r', '\U{1C}', '\U{1D}', '\U{1E}', '\U{1F}',
    '\U{85}', '\U{A0}', '\U{1680}', '\U{2000}', '\U{2001}', '\U{2002}', '\U{2003}', '\U{2004}', '\U{2005}',
    '\U{2006}', '\U{2007}', '\U{2008}', '\U{2009}', '\U{200A}', '\U{2028}', '\U{2029}', '\U{202F}', '\U{205F}', '\U{3000}'}
  predicate IsSpace(c: char) {
    c in SpaceChars
  }

  /** `not s.strip()`: empty or whitespace only. */
  predicate IsBlank(s: string) {
    forall i | 0 <= i < |s| :: IsSpace(s[i])
  }

  /** No leading and no trailing whitespace. */
  predicate Trimmed(s: string) {
    |s| == 0 || (!IsSpace(s[0]) && !IsSpace(s[|s| - 1]))
  }

  /** Every whitespace character is a plain space and no two are adjacent. */
  ghost predicate SingleSpaced(s: string) {
    && (forall i | 0 <= i < |s| :: IsSpace(s[i]) ==> s[i] == ' ')
    && (forall i, j | 0 <= i < j < |s| && j == i + 1 :: !(IsSpace(s[i]) && IsSpace(s[j])))
  }

  /** What `re.sub(r"\s+", " ", s).strip()` always produces. */
  ghost predicate Tidy(s: string) {
    Trimmed(s) && SingleSpaced(s)
  }

  /** `s or d` for a string that may be `None`: the empty string is falsy too. */
  function OrElse(s: Option<string>, d: string): (r: string)
    ensures s.None? || s.value == [] ==> r == d
    ensures s.Some? && s.value != [] ==> r == s.value
  {
    match s
    case Some(v) => if v == [] then d else v
    case None => d
  }

  /** End of the whitespace run starting at `i`. */
  function SpanSpace(s: string, i: nat): (j: nat)
    requires i <= |s|
    ensures i <= j <= |s|
    ensures forall k | i <= k < j :: IsSpace(s[k])
    ensures j == |s| || !IsSpace(s[j])
    decreases |s| - i
  {
    if i < |s| && IsSpace(s[i]) then SpanSpace(s, i + 1) else i
  }

  /** Start of the whitespace run ending at `j`. */
  function SpanSpaceBack(s: string, j: nat): (i: nat)
    requires j <= |s|
    ensures i <= j
    ensures forall k | i <= k < j :: IsSpace(s[k])
    ensures i == 0 || !IsSpace(s[i - 1])
    decreases j
  {
    if j > 0 && IsSpace(s[j - 1]) then SpanSpaceBack(s, j - 1) else j
  }

  /** `s.lstrip()`: the suffix left after the leading whitespace. */
  function TrimStart(s: string): (r: string)
    ensures |r| <= |s| && r == s[|s| - |r|..]
    ensures IsBlank(s[..|s| - |r|])
    ensures |r| > 0 ==> !IsSpace(r[0])
    ensures r == [] <==> IsBlank(s)
  {
    s[SpanSpace(s, 0)..]
  }

  /** `s.rstrip()`: the prefix left before the trailing whitespace. */
  function TrimEnd(s: string): (r: string)
    ensures |r| <= |s| && r == s[..|r|]
    ensures IsBlank(s[|r|..])
    ensures |r| > 0 ==> !IsSpace(r[|r| - 1])
    ensures r == [] <==> IsBlank(s)
  {
    s[..SpanSpaceBack(s, |s|)]
  }

  /** A prefix holds no character the text does not hold. */
  lemma PrefixKeepsOut(c: char, s: string, n: nat)
    requires n <= |s| && c !in s
    ensures c !in s[..n]
  {
    forall k | 0 <= k < n
      ensures s[..n][k] != c
    {
      assert s[..n][k] == s[k];
    }
  }

  /** `rstrip` keeps exactly the prefix up to the last visible character. */
  lemma TrimEndIs(s: string, n: nat)
    requires n <= |s| && (n == 0 || !IsSpace(s[n - 1]))
    requires forall k | n <= k < |s| :: IsSpace(s[k])
    ensures TrimEnd(s) == s[..n]
  {
    assert SpanSpaceBack(s, |s|) == n;
  }

  /** Number of leading whitespace characters `strip` removes. */
  function Lead(s: string): nat {
    |s| - |TrimStart(s)|
  }

  lemma BlankAppend(a: string, b: string)
    ensures IsBlank(a + b) <==> IsBlank(a) && IsBlank(b)
  {
    if IsBlank(a) && IsBlank(b) {
      forall i | 0 <= i < |a + b|
        ensures IsSpace((a + b)[i])
      {
        if i >= |a| {
          assert (a + b)[i] == b[i - |a|];
        }
      }
    }
    if IsBlank(a + b) {
      forall i | 0 <= i < |a|
        ensures IsSpace(a[i])
      {
        assert (a + b)[i] == a[i];
      }
      forall i | 0 <= i < |b|
        ensures IsSpace(b[i])
      {
        assert (a + b)[|a| + i] == b[i];
      }
    }
  }

  lemma TrimEndKeepsFirst(t: string)
    requires |t| > 0 ==> !IsSpace(t[0])
    ensures Trimmed(TrimEnd(t))
  {
    var r := TrimEnd(t);
    if |r| > 0 {
      assert r[0] == t[0];
    }
  }

  lemma TrimBothBlank(s: string)
    ensures TrimEnd(TrimStart(s)) == [] <==> IsBlank(s)
  {
    var t := TrimStart(s);
    assert IsBlank(t) <==> t == [] by {
      if |t| > 0 {
        assert !IsSpace(t[0]);
      }
    }
  }

  lemma TrimBothInfix(s: string)
    ensures |s| - |TrimStart(s)| + |TrimEnd(TrimStart(s))| <= |s|
    ensures TrimEnd(TrimStart(s)) == s[Lead(s)..Lead(s) + |TrimEnd(TrimStart(s))|]
  {
    var t := TrimStart(s);
    var a := Lead(s);
    var r := TrimEnd(t);
    assert t == s[a..];
    assert r == t[..|r|];
    assert s[a..][..|r|] == s[a..a + |r|];
  }

  /** `s.strip()`: the infix between the leading and the trailing whitespace. */
  function Strip(s: string): (r: string)
    ensures Trimmed(r)
    ensures r == [] <==> IsBlank(s)
    ensures Lead(s) + |r| <= |s| && r == s[Lead(s)..Lead(s) + |r|]
  {
    TrimEndKeepsFirst(TrimStart(s));
    TrimBothBlank(s);
    TrimBothInfix(s);
    TrimEnd(TrimStart(s))
  }

  /** `re.sub(r"\s+", " ", s)`: every maximal whitespace run becomes one space. */
  function Collapse(s: string): (r: string)
    ensures SingleSpaced(r)
    ensures |r| == 0 <==> |s| == 0
    ensures |r| > 0 ==> (IsSpace(r[0]) <==> IsSpace(s[0]))
    ensures IsBlank(r) <==> IsBlank(s)
    decreases |s|
  {
    if |s| == 0 then []
    else if IsSpace(s[0]) then
      var t := TrimStart(s);
      assert s == s[..|s| - |t|] + t;
      BlankAppend(s[..|s| - |t|], t);
      BlankAppend(" ", Collapse(t));
      " " + Collapse(t)
    else
      [s[0]] + Collapse(s[1..])
  }

  /** A trailing whitespace run stays one space at the end; a text ending in a
      visible character still ends in it. */
  lemma {:induction false} CollapseEnd(s: string)
    requires |s| > 0
    ensures |Collapse(s)| > 0
    ensures IsSpace(s[|s| - 1]) ==> Collapse(s)[|Collapse(s)| - 1] == ' '
    ensures !IsSpace(s[|s| - 1]) ==> Collapse(s)[|Collapse(s)| - 1] == s[|s| - 1]
    decreases |s|
  {
    if IsSpace(s[0]) {
      var t := TrimStart(s);
      assert s == s[..|s| - |t|] + t;
      if |t| > 0 {
        assert t[|t| - 1] == s[|s| - 1];
        CollapseEnd(t);
      } else {
        assert s[|s| - 1] in s[..|s| - |t|];
      }
    } else if |s| > 1 {
      assert s[1..][|s| - 2] == s[|s| - 1];
      CollapseEnd(s[1..]);
    }
  }

  lemma SingleSpacedInfix(s: string, a: nat, b: nat)
    requires SingleSpaced(s) && a <= b <= |s|
    ensures SingleSpaced(s[a..b])
  {
    var t := s[a..b];
    forall i | 0 <= i < |t| - 1
      ensures IsSpace(t[i]) ==> !IsSpace(t[i + 1])
    {
      assert t[i] == s[a + i] && t[i + 1] == s[a + i + 1];
    }
  }

  lemma StripKeepsSingleSpaced(c: string)
    requires SingleSpaced(c)
    ensures SingleSpaced(Strip(c))
  {
    SingleSpacedInfix(c, Lead(c), Lead(c) + |Strip(c)|);
  }

  /** `re.sub(r"\s+", " ", s).strip()`, Python's usual whitespace normaliser. */
  function Squish(s: string): (r: string)
    ensures Tidy(r)
    ensures r == [] <==> IsBlank(s)
  {
    StripKeepsSingleSpaced(Collapse(s));
    Strip(Collapse(s))
  }

  /** The non-whitespace characters of `s`, in order. */
  function Words(s: string): string {
    if |s| == 0 then [] else (if IsSpace(s[0]) then [] else [s[0]]) + Words(s[1..])
  }

  lemma {:induction false} WordsAppend(a: string, b: string)
    ensures Words(a + b) == Words(a) + Words(b)
    decreases |a|
  {
    if |a| == 0 {
      assert a + b == b;
    } else {
      var h := if IsSpace(a[0]) then [] else [a[0]];
      assert (a + b)[0] == a[0];
      assert (a + b)[1..] == a[1..] + b;
      WordsAppend(a[1..], b);
      assert Words(a + b) == h + Words(a[1..] + b);
      assert Words(a) == h + Words(a[1..]);
      assert h + (Words(a[1..]) + Words(b)) == (h + Words(a[1..])) + Words(b);
    }
  }

  lemma {:induction false} WordsOfBlank(s: string)
    requires IsBlank(s)
    ensures Words(s) == []
    decreases |s|
  {
    if |s| > 0 {
      WordsOfBlank(s[1..]);
    }
  }

  lemma {:induction false} CollapseKeepsWords(s: string)
    ensures Words(Collapse(s)) == Words(s)
    decreases |s|
  {
    if |s| == 0 {
    } else if IsSpace(s[0]) {
      var t := TrimStart(s);
      assert s == s[..|s| - |t|] + t;
      WordsAppend(s[..|s| - |t|], t);
      WordsOfBlank(s[..|s| - |t|]);
      CollapseKeepsWords(t);
      WordsAppend(" ", Collapse(t));
    } else {
      assert s == [s[0]] + s[1..];
      WordsAppend([s[0]], s[1..]);
      CollapseKeepsWords(s[1..]);
      WordsAppend([s[0]], Collapse(s[1..]));
    }
  }

  /** Cutting whitespace off both ends keeps the words. */
  lemma WordsDropFront(x: string, y: string)
    requires IsBlank(x)
    ensures Words(x + y) == Words(y)
  {
    WordsAppend(x, y);
    WordsOfBlank(x);
  }

  lemma WordsDropBack(x: string, y: string)
    requires IsBlank(y)
    ensures Words(x + y) == Words(x)
  {
    WordsAppend(x, y);
    WordsOfBlank(y);
  }

  lemma StripKeepsWords(s: string)
    ensures Words(Strip(s)) == Words(s)
  {
    var l, e := StripSplit(s);
    WordsDropFront(l, Strip(s) + e);
    WordsDropBack(Strip(s), e);
  }

  /** Normalising keeps every non-whitespace character, in order. */
  lemma SquishKeepsWords(s: string)
    ensures Words(Squish(s)) == Words(s)
  {
    CollapseKeepsWords(s);
    StripKeepsWords(Collapse(s));
  }

  /** A visible character occurs among the words of a text exactly when it
      occurs in the text. */
  lemma {:induction false} VisibleInWords(s: string, c: char)
    requires !IsSpace(c)
    ensures c in Words(s) <==> c in s
    decreases |s|
  {
    if |s| > 0 {
      VisibleInWords(s[1..], c);
      assert s == [s[0]] + s[1..];
    }
  }

  lemma {:induction false} CollapseFixesSingleSpaced(s: string)
    requires SingleSpaced(s)
    ensures Collapse(s) == s
    decreases |s|
  {
    if |s| > 0 {
      SingleSpacedInfix(s, 1, |s|);
      if IsSpace(s[0]) {
        if |s| > 1 {
          assert !IsSpace(s[1]);
        }
        assert TrimStart(s) == s[1..];
      }
      CollapseFixesSingleSpaced(s[1..]);
    }
  }

  lemma StripFixesTrimmed(s: string)
    requires Trimmed(s)
    ensures Strip(s) == s
  {
    if |s| > 0 {
      assert SpanSpace(s, 0) == 0;
      assert SpanSpaceBack(s, |s|) == |s|;
    }
    assert s[0..] == s && s[..|s|] == s;
  }

  /** Normalising a normalised text changes nothing. */
  lemma SquishFixesTidy(t: string)
    requires Tidy(t)
    ensures Squish(t) == t
  {
    CollapseFixesSingleSpaced(t);
    StripFixesTrimmed(t);
  }

  /** Normalising is idempotent. */
  lemma SquishIdempotent(s: string)
    ensures Squish(Squish(s)) == Squish(s)
  {
    var t := Squish(s);
    CollapseFixesSingleSpaced(t);
    StripFixesTrimmed(t);
  }

  // ------------------------------------------------------ s.split()

  /** End of the run of non-whitespace characters starting at `i`. */
  function SpanVisible(s: string, i: nat): (j: nat)
    requires i <= |s|
    ensures i <= j <= |s|
    ensures forall k | i <= k < j :: !IsSpace(s[k])
    ensures j == |s| || IsSpace(s[j])
    decreases |s| - i
  {
    if i < |s| && !IsSpace(s[i]) then SpanVisible(s, i + 1) else i
  }

  /** `s.split()` with no separator: the maximal runs of non-whitespace
      characters, in order; whitespace only separates them. */
  function SplitWs(s: string): seq<string>
    decreases |s|
  {
    if |s| == 0 then []
    else if IsSpace(s[0]) then SplitWs(s[1..])
    else
      var n := SpanVisible(s, 0);
      assert n > 0;
      [s[..n]] + SplitWs(s[n..])
  }

  /** Every part `split()` returns is non-empty and holds no whitespace. */
  lemma {:induction false} SplitWsParts(s: string)
    ensures forall k | 0 <= k < |SplitWs(s)| :: SplitWs(s)[k] != [] && !HasSpace(SplitWs(s)[k])
    decreases |s|
  {
    if |s| > 0 {
      if IsSpace(s[0]) {
        SplitWsParts(s[1..]);
      } else {
        var n := SpanVisible(s, 0);
        SplitWsParts(s[n..]);
        assert !HasSpace(s[..n]) by {
          forall k | 0 <= k < n ensures !IsSpace(s[..n][k]) {
            assert s[..n][k] == s[k];
          }
        }
      }
    }
  }

  /** Some character is whitespace. */
  predicate HasSpace(s: string) {
    exists k | 0 <= k < |s| :: IsSpace(s[k])
  }

  lemma {:induction false} SpanVisibleIs(s: string, i: nat, j: nat)
    requires i <= j <= |s|
    requires forall k | i <= k < j :: !IsSpace(s[k])
    requires j == |s| || IsSpace(s[j])
    ensures SpanVisible(s, i) == j
    decreases j - i
  {
    if i < j {
      SpanVisibleIs(s, i + 1, j);
    }
  }

  /** A run of visible characters followed by whitespace or nothing is one part. */
  lemma SplitWsVisibleThen(u: string, v: string)
    requires |u| > 0 && Visible(u)
    requires |v| == 0 || IsSpace(v[0])
    ensures SplitWs(u + v) == [u] + SplitWs(v)
  {
    var s := u + v;
    assert forall k | 0 <= k < |u| :: s[k] == u[k];
    if |v| > 0 {
      assert s[|u|] == v[0];
    }
    SpanVisibleIs(s, 0, |u|);
    assert s[..|u|] == u && s[|u|..] == v;
  }

  /** Leading whitespace gives no part. */
  lemma {:induction false} SplitWsBlankThen(w: string, v: string)
    requires IsBlank(w)
    ensures SplitWs(w + v) == SplitWs(v)
    decreases |w|
  {
    if |w| > 0 {
      assert (w + v)[0] == w[0];
      assert (w + v)[1..] == w[1..] + v;
      SplitWsBlankThen(w[1..], v);
    } else {
      assert w + v == v;
    }
  }

  /** Trailing whitespace gives no part. */
  lemma {:induction false} SplitWsThenBlank(u: string, w: string)
    requires IsBlank(w)
    ensures SplitWs(u + w) == SplitWs(u)
    decreases |u|
  {
    if |u| == 0 {
      assert u + w == w + [];
      SplitWsBlankThen(w, []);
    } else if IsSpace(u[0]) {
      assert (u + w)[0] == u[0];
      assert (u + w)[1..] == u[1..] + w;
      SplitWsThenBlank(u[1..], w);
    } else {
      var n := SpanVisible(u, 0);
      var a, b := u[..n], u[n..];
      assert u == a + b && u + w == a + (b + w);
      VisiblePrefix(u, n);
      if |b| > 0 {
        assert b[0] == u[n] && (b + w)[0] == b[0];
      } else {
        assert b + w == w;
      }
      SplitWsVisibleThen(a, b + w);
      SplitWsVisibleThen(a, b);
      SplitWsThenBlank(b, w);
    }
  }

  /** `strip` does not change the parts. */
  lemma SplitWsStrip(t: string)
    ensures SplitWs(Strip(t)) == SplitWs(t)
  {
    var l, e := StripSplit(t);
    SplitWsBlankThen(l, Strip(t) + e);
    SplitWsThenBlank(Strip(t), e);
  }

  /** A text is its stripped form between two runs of whitespace. */
  lemma StripSplit(t: string) returns (l: string, e: string)
    ensures IsBlank(l) && IsBlank(e)
    ensures t == l + (Strip(t) + e)
  {
    var t1 := TrimStart(t);
    var r := TrimEnd(t1);
    assert Strip(t) == r;
    l, e := t[..|t| - |t1|], t1[|r|..];
    assert t == l + t1;
    assert t1 == r + e;
  }

  /** A visible character in front joins the first part, or starts a new one. */
  lemma SplitWsCons(c: char, x: string)
    requires !IsSpace(c)
    ensures SplitWs([c] + x) ==
      if |x| > 0 && !IsSpace(x[0]) then [[c] + SplitWs(x)[0]] + SplitWs(x)[1..] else [[c]] + SplitWs(x)
  {
    if |x| > 0 && !IsSpace(x[0]) {
      var n := SpanVisible(x, 0);
      var a, b := x[..n], x[n..];
      ConsSplitAt(c, x, n);
      VisiblePrefix(x, n);
      VisibleCons(c, a);
      SplitWsVisibleThen(a, b);
      SplitWsVisibleThen([c] + a, b);
    } else {
      VisibleCons(c, []);
      SplitWsVisibleThen([c], x);
    }
  }

  /** No character is whitespace. */
  predicate Visible(u: string) {
    forall k | 0 <= k < |u| :: !IsSpace(u[k])
  }

  lemma VisibleCons(c: char, a: string)
    requires !IsSpace(c) && Visible(a)
    ensures Visible([c] + a)
  {
    assert forall k | 1 <= k < |[c] + a| :: ([c] + a)[k] == a[k - 1];
  }

  lemma VisiblePrefix(x: string, n: nat)
    requires n <= |x| && forall k | 0 <= k < n :: !IsSpace(x[k])
    ensures Visible(x[..n])
  {
    assert forall k | 0 <= k < n :: x[..n][k] == x[k];
  }

  lemma ConsSplitAt<T>(c: T, x: seq<T>, n: nat)
    requires n <= |x|
    ensures x == x[..n] + x[n..]
    ensures [c] + x == ([c] + x[..n]) + x[n..]
  {
  }

  /** Dropping leading whitespace leaves a shorter text. */
  lemma TrimStartShorter(s: string)
    requires |s| > 0 && IsSpace(s[0])
    ensures |TrimStart(s)| < |s|
  {
  }

  lemma CollapseVisibleStep(s: string)
    requires |s| > 0 && !IsSpace(s[0])
    ensures Collapse(s) == [s[0]] + Collapse(s[1..])
  {
  }

  lemma CollapseSpaceStep(s: string)
    requires |s| > 0 && IsSpace(s[0])
    ensures Collapse(s) == " " + Collapse(TrimStart(s))
  {
  }

  /** Collapsing whitespace runs keeps the parts: every visible character
      stays, and a run between two of them stays a separator. */
  lemma {:induction false} CollapseKeepsSplit(s: string)
    ensures SplitWs(Collapse(s)) == SplitWs(s)
    decreases |s|
  {
    if |s| == 0 {
    } else if IsSpace(s[0]) {
      var t := TrimStart(s);
      var l := s[..|s| - |t|];
      assert s == l + t;
      TrimStartShorter(s);
      SplitWsBlankThen(l, t);
      CollapseKeepsSplit(t);
      CollapseSpaceStep(s);
      var c := " " + Collapse(t);
      assert c[0] == ' ' && c[1..] == Collapse(t);
    } else {
      var x := s[1..];
      var cx := Collapse(x);
      CollapseVisibleStep(s);
      CollapseKeepsSplit(x);
      SplitWsCons(s[0], cx);
      SplitWsCons(s[0], x);
      assert s == [s[0]] + x;
    }
  }

  /** A trimmed, single-spaced text is its parts joined by single spaces. */
  lemma {:induction false} TidyIsJoin(t: string)
    requires Tidy(t)
    ensures Join(SplitWs(t), " ") == t
    decreases |t|
  {
    if |t| > 0 {
      var n := SpanVisible(t, 0);
      var a := t[..n];
      if n == |t| {
        assert a == t && t[n..] == [];
      } else {
        assert t[n] == ' ';
        assert n + 1 < |t|;
        assert !IsSpace(t[n + 1]);
        var u := t[n + 1..];
        SingleSpacedInfix(t, n + 1, |t|);
        assert t[n + 1..|t|] == u;
        TidyIsJoin(u);
        var m := SpanVisible(u, 0);
        assert SplitWs(u) == [u[..m]] + SplitWs(u[m..]);
        assert t[n..][0] == t[n] && t[n..][1..] == u;
        assert SplitWs(t[n..]) == SplitWs(u);
        assert SplitWs(t) == [a] + SplitWs(u);
        assert t == a + " " + u;
      }
    }
  }

  /** `re.sub(r"\s+", " ", s).strip()` is `" ".join(s.split())`. */
  lemma SquishIsJoin(s: string)
    ensures Squish(s) == Join(SplitWs(s), " ")
  {
    var c := Collapse(s);
    TidyIsJoin(Squish(s));
    SplitWsStrip(c);
    CollapseKeepsSplit(s);
  }

  /** ASCII lower case; other characters are left alone. */
  function Lower(c: char): char {
    if 'A' <= c <= 'Z' then (c as int + 32) as char else c
  }

  /** ASCII upper case; other characters are left alone. */
  function Upper(c: char): char {
    if 'a' <= c <= 'z' then (c as int - 32) as char else c
  }

  /** `s.lower()` on ASCII letters. */
  function LowerAll(s: string): string {
    seq(|s|, i requires 0 <= i < |s| => Lower(s[i]))
  }

  /** `s.upper()` on ASCII letters. */
  function UpperAll(s: string): string {
    seq(|s|, i requires 0 <= i < |s| => Upper(s[i]))
  }

  /** `a` and `b` are equal when ASCII case is ignored. */
  predicate EqualsIgnoreCase(a: string, b: string) {
    |a| == |b| && forall i | 0 <= i < |a| :: Lower(a[i]) == Lower(b[i])
  }

  /** `w` occurs in `s` at position `p`, ASCII case ignored (`re.IGNORECASE`). */
  predicate MatchesAt(s: string, p: int, w: string) {
    0 <= p && p + |w| <= |s| && forall j | 0 <= j < |w| :: Lower(s[p + j]) == Lower(w[j])
  }

  /** The first position at or after `from` where `w` occurs, case ignored. */
  function Find(s: string, w: string, from: nat): (r: Option<nat>)
    ensures r.Some? ==> from <= r.value && MatchesAt(s, r.value, w)
    ensures r.Some? ==> forall j | from <= j < r.value :: !MatchesAt(s, j, w)
    ensures r.None? ==> forall j | from <= j :: !MatchesAt(s, j, w)
    decreases |s| - from
  {
    if from + |w| > |s| then None
    else if MatchesAt(s, from, w) then Some(from)
    else Find(s, w, from + 1)
  }

  /** `s` ends with `w`, ASCII case ignored: `s.lower().endswith(w.lower())`. */
  predicate EndsWithIgnoreCase(s: string, w: string) {
    MatchesAt(s, |s| - |w|, w)
  }

  /** Position of the first `c` in `s`. */
  function IndexOf(s: string, c: char): (k: nat)
    requires c in s
    ensures k < |s| && s[k] == c && c !in s[..k]
  {
    if s[0] == c then 0 else
      var k := IndexOf(s[1..], c);
      assert s[..k + 1] == [s[0]] + s[1..][..k];
      k + 1
  }

  /** `sep.join(parts)`. */
  function Join(parts: seq<string>, sep: string): string {
    if |parts| == 0 then []
    else if |parts| == 1 then parts[0]
    else parts[0] + sep + Join(parts[1..], sep)
  }

  /** `s.split(sep)` for a one-character separator: never an empty list. */
  function Split(s: string, sep: char): (parts: seq<string>)
    ensures |parts| >= 1
    decreases |s|
  {
    if sep in s then
      var k := IndexOf(s, sep);
      [s[..k]] + Split(s[k + 1..], sep)
    else
      [s]
  }

  lemma {:induction false} IndexOfAfter(a: string, c: char, b: string)
    requires c !in a
    ensures IndexOf(a + [c] + b, c) == |a|
    decreases |a|
  {
    if |a| > 0 {
      assert a[0] != c;
      assert (a + [c] + b)[1..] == a[1..] + [c] + b;
      IndexOfAfter(a[1..], c, b);
    }
  }

  /** Splitting a joined text on the separator gives the parts back, provided
      no part contains the separator. */
  lemma {:induction false} SplitJoin(parts: seq<string>, sep: char)
    requires |parts| >= 1
    requires forall i | 0 <= i < |parts| :: sep !in parts[i]
    ensures Split(Join(parts, [sep]), sep) == parts
    decreases |parts|
  {
    if |parts| > 1 {
      var rest := Join(parts[1..], [sep]);
      var j := parts[0] + [sep] + rest;
      assert j[|parts[0]|] == sep;
      IndexOfAfter(parts[0], sep, rest);
      assert j[..|parts[0]|] == parts[0];
      assert j[|parts[0]| + 1..] == rest;
      SplitJoin(parts[1..], sep);
    } else {
      assert sep !in parts[0];
    }
  }
}
