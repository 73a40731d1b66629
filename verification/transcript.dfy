/** The plain-text side of the Streamlit page (app_streamlit.py): the
    downloadable script transcript, its file name, and the on-screen script
    view. The clock reading is a parameter: `stamp` is the already formatted
    `YYYY-MM-DD HH:MM:SS` text. */
module Transcript {
  import opened Results
  import opened Text
  import opened Script
  import EpisodeAssembly

  /** The speaker as the page reads it: `turn.get('speaker', 'Unknown')`. */
  function ShownSpeaker(t: Turn): string {
    t.speaker.GetOr("Unknown")
  }

  /** The text as the page reads it: `turn.get('text', '')`. */
  function ShownText(t: Turn): string {
    t.text.GetOr([])
  }

  // ---------------------------------------------------------------- numbers

  function Digit(d: nat): (c: char)
    requires d < 10
    ensures '0' <= c <= '9'
  {
    ('0' as int + d) as char
  }

  predicate IsDigit(c: char) {
    '0' <= c <= '9'
  }

  /** `str(n)` for a natural number. */
  function Decimal(n: nat): (s: string)
    ensures |s| >= 1
    ensures forall i | 0 <= i < |s| :: IsDigit(s[i])
    ensures n >= 10 <==> |s| >= 2
    ensures |s| >= 2 ==> s[0] != '0'
  {
    if n < 10 then [Digit(n)] else Decimal(n / 10) + [Digit(n % 10)]
  }

  /** The value of a string of decimal digits. */
  function ParseDecimal(s: string): nat
    requires forall i | 0 <= i < |s| :: IsDigit(s[i])
  {
    if |s| == 0 then 0
    else
      assert IsDigit(s[|s| - 1]);
      ParseDecimal(s[..|s| - 1]) * 10 + (s[|s| - 1] as int - '0' as int)
  }

  /** Reading back a rendered number gives the number. */
  lemma {:induction false} DecimalRoundTrip(n: nat)
    ensures ParseDecimal(Decimal(n)) == n
  {
    if n >= 10 {
      var s := Decimal(n);
      assert s[..|s| - 1] == Decimal(n / 10);
      DecimalRoundTrip(n / 10);
    }
  }

  /** Leading zeros do not change a number's value. */
  lemma {:induction false} ParseLeadingZero(s: string)
    requires forall i | 0 <= i < |s| :: IsDigit(s[i])
    ensures ParseDecimal("0" + s) == ParseDecimal(s)
    decreases |s|
  {
    if |s| > 0 {
      var t := "0" + s;
      assert t[..|t| - 1] == "0" + s[..|s| - 1];
      ParseLeadingZero(s[..|s| - 1]);
    }
  }

  /** `f"{i:02d}"`: the number, padded with a zero to at least two digits. */
  function Pad2(i: nat): (s: string)
    ensures |s| >= 2 && forall k | 0 <= k < |s| :: IsDigit(s[k])
    ensures ParseDecimal(s) == i
    ensures i < 100 ==> |s| == 2
    ensures i >= 10 ==> s == Decimal(i)
  {
    DecimalRoundTrip(i);
    if i < 10 then
      ParseLeadingZero(Decimal(i));
      "0" + Decimal(i)
    else
      Decimal(i)
  }

  // ------------------------------------------------------------- transcript

  /** A rule of sixty `=` (`"=" * 60`). */
  function Rule(): (r: string)
    ensures |r| == 60 && forall i | 0 <= i < |r| :: r[i] == '='
  {
    seq(60, i => '=')
  }

  function HeaderLines(title: string, stamp: string): seq<string> {
    [Rule(), "PODCAST SCRIPT", Rule(), "Title: " + title, "Generated: " + stamp, Rule(), ""]
  }

  const FooterLines: seq<string> := [Rule(), "END OF SCRIPT", Rule()]

  /** The heading line of the `i`-th turn (numbered from 1). */
  function TurnHeading(i: nat, t: Turn): string {
    "[" + Pad2(i) + "] " + UpperAll(ShownSpeaker(t)) + ":"
  }

  /** The three lines of the `i`-th turn: heading, indented text, blank. */
  function TurnLines(i: nat, t: Turn): seq<string> {
    [TurnHeading(i, t), "    " + ShownText(t), ""]
  }

  /** The lines of `turns`, the first of them numbered `first`. */
  function BodyLines(turns: seq<Turn>, first: nat): (lines: seq<string>)
    ensures |lines| == 3 * |turns|
    ensures forall k | 0 <= k < |turns| :: lines[3 * k..3 * k + 3] == TurnLines(first + k, turns[k])
  {
    if |turns| == 0 then []
    else
      var rest := BodyLines(turns[1..], first + 1);
      var lines := TurnLines(first, turns[0]) + rest;
      assert forall k | 1 <= k < |turns| :: lines[3 * k..3 * k + 3] == rest[3 * (k - 1)..3 * (k - 1) + 3];
      lines
  }

  /** The lines of the transcript: seven header lines, three per turn, three
      footer lines. */
  function TranscriptLines(turns: seq<Turn>, title: string, stamp: string): (lines: seq<string>)
    ensures |lines| == 10 + 3 * |turns|
    ensures lines[..7] == HeaderLines(title, stamp)
    ensures forall k | 0 <= k < |turns| :: lines[7 + 3 * k..10 + 3 * k] == TurnLines(k + 1, turns[k])
    ensures lines[|lines| - 3..] == FooterLines
  {
    var body := BodyLines(turns, 1);
    var lines := HeaderLines(title, stamp) + body + FooterLines;
    assert lines[7..7 + |body|] == body;
    forall k | 0 <= k < |turns|
      ensures lines[7 + 3 * k..10 + 3 * k] == TurnLines(k + 1, turns[k])
    {
      assert lines[7 + 3 * k..10 + 3 * k] == body[3 * k..3 * k + 3];
    }
    lines
  }

  /** The `k`-th turn's lines (counting from 0): `[NN] SPEAKER:`, with the
      number padded to two digits and a missing speaker shown as `UNKNOWN`,
      then the text indented by four spaces, then a blank line. */
  lemma TurnLinesShape(turns: seq<Turn>, title: string, stamp: string, k: nat)
    requires k < |turns|
    ensures var lines := TranscriptLines(turns, title, stamp);
      && lines[7 + 3 * k] == "[" + Pad2(k + 1) + "] " + UpperAll(ShownSpeaker(turns[k])) + ":"
      && lines[8 + 3 * k] == "    " + ShownText(turns[k])
      && lines[9 + 3 * k] == ""
      && (turns[k].speaker.None? ==> lines[7 + 3 * k] == "[" + Pad2(k + 1) + "] UNKNOWN:")
      && (k < 9 ==> lines[7 + 3 * k][..5] == ['[', '0', Digit(k + 1), ']', ' '])
  {
    var lines := TranscriptLines(turns, title, stamp);
    assert lines[7 + 3 * k..10 + 3 * k] == TurnLines(k + 1, turns[k]);
    assert lines[7 + 3 * k] == lines[7 + 3 * k..10 + 3 * k][0];
    assert lines[8 + 3 * k] == lines[7 + 3 * k..10 + 3 * k][1];
    assert lines[9 + 3 * k] == lines[7 + 3 * k..10 + 3 * k][2];
  }

  /** `generate_script_text_file`: the lines joined by newlines. */
  function TranscriptText(turns: seq<Turn>, title: string, stamp: string): string {
    Join(TranscriptLines(turns, title, stamp), "\n")
  }

  /** No field of the transcript holds a line break. */
  predicate SingleLineFields(turns: seq<Turn>, title: string, stamp: string) {
    && '\n' !in title && '\n' !in stamp
    && forall k | 0 <= k < |turns| :: '\n' !in ShownSpeaker(turns[k]) && '\n' !in ShownText(turns[k])
  }

  lemma HeadingIsSingle(i: nat, t: Turn)
    requires '\n' !in ShownSpeaker(t)
    ensures '\n' !in TurnHeading(i, t)
  {
    var up := UpperAll(ShownSpeaker(t));
    assert forall j | 0 <= j < |up| :: up[j] != '\n' by {
      forall j | 0 <= j < |up| ensures up[j] != '\n' {
        assert ShownSpeaker(t)[j] != '\n';
      }
    }
    var p := Pad2(i);
    assert forall j | 0 <= j < |p| :: p[j] != '\n';
    var h := "[" + p + "] " + up + ":";
    forall j | 0 <= j < |h| ensures h[j] != '\n' {
      if 1 <= j < 1 + |p| {
        assert h[j] == p[j - 1];
      } else if 3 + |p| <= j < 3 + |p| + |up| {
        assert h[j] == up[j - 3 - |p|];
      }
    }
  }

  lemma HeaderIsSingle(title: string, stamp: string, i: nat)
    requires '\n' !in title && '\n' !in stamp && i < 7
    ensures '\n' !in HeaderLines(title, stamp)[i]
  {
    var line := HeaderLines(title, stamp)[i];
    forall j | 0 <= j < |line| ensures line[j] != '\n' {
      if i == 3 && j >= 7 {
        assert line[j] == title[j - 7];
      } else if i == 4 && j >= 11 {
        assert line[j] == stamp[j - 11];
      }
    }
  }

  /** No line of `lines` holds a line break. */
  predicate AllSingle(lines: seq<string>) {
    forall i | 0 <= i < |lines| :: '\n' !in lines[i]
  }

  lemma TurnIsSingle(i: nat, t: Turn)
    requires '\n' !in ShownSpeaker(t) && '\n' !in ShownText(t)
    ensures AllSingle(TurnLines(i, t))
  {
    HeadingIsSingle(i, t);
    var body := "    " + ShownText(t);
    forall j | 0 <= j < |body| ensures body[j] != '\n' {
      if j >= 4 {
        assert body[j] == ShownText(t)[j - 4];
      }
    }
  }

  lemma {:induction false} BodyIsSingle(turns: seq<Turn>, first: nat)
    requires forall k | 0 <= k < |turns| :: '\n' !in ShownSpeaker(turns[k]) && '\n' !in ShownText(turns[k])
    ensures AllSingle(BodyLines(turns, first))
    decreases |turns|
  {
    if |turns| > 0 {
      TurnIsSingle(first, turns[0]);
      BodyIsSingle(turns[1..], first + 1);
      var a := TurnLines(first, turns[0]);
      var b := BodyLines(turns[1..], first + 1);
      assert BodyLines(turns, first) == a + b;
      forall i | 0 <= i < |a + b| ensures '\n' !in (a + b)[i] {
        if i >= |a| {
          assert (a + b)[i] == b[i - |a|];
        }
      }
    }
  }

  /** When no field holds a line break, splitting the transcript on newlines
      gives back exactly its lines. */
  lemma TranscriptSplits(turns: seq<Turn>, title: string, stamp: string)
    requires SingleLineFields(turns, title, stamp)
    ensures Split(TranscriptText(turns, title, stamp), '\n') == TranscriptLines(turns, title, stamp)
  {
    var head := HeaderLines(title, stamp);
    var body := BodyLines(turns, 1);
    var lines := TranscriptLines(turns, title, stamp);
    assert lines == head + body + FooterLines;
    BodyIsSingle(turns, 1);
    forall i | 0 <= i < |lines| ensures '\n' !in lines[i] {
      if i < 7 {
        assert lines[i] == head[i];
        HeaderIsSingle(title, stamp, i);
      } else if i < 7 + |body| {
        assert lines[i] == body[i - 7];
      } else {
        assert lines[i] == FooterLines[i - 7 - |body|];
      }
    }
    SplitJoin(lines, '\n');
  }

  // -------------------------------------------------------------- file name

  /** `s.replace(' ', '_')`. */
  function Underscored(s: string): (r: string)
    ensures |r| == |s|
    ensures forall i | 0 <= i < |s| :: r[i] == (if s[i] == ' ' then '_' else s[i])
  {
    seq(|s|, i requires 0 <= i < |s| => if s[i] == ' ' then '_' else s[i])
  }

  function Min(a: int, b: int): int {
    if a < b then a else b
  }

  /** The transcript's download name:
      `f"podcast_script_{title.replace(' ', '_')[:50]}.txt"`. */
  function TranscriptFileName(title: string): (name: string)
    ensures |name| == |"podcast_script_"| + Min(50, |title|) + |".txt"|
    ensures name[..15] == "podcast_script_"
    ensures name[|name| - 4..] == ".txt"
    ensures forall i | 0 <= i < Min(50, |title|) ::
      name[15 + i] == (if title[i] == ' ' then '_' else title[i])
    ensures ' ' !in name
  {
    var mid := Underscored(title)[..Min(50, |title|)];
    assert ' ' !in mid by {
      forall i | 0 <= i < |mid| ensures mid[i] != ' ' {
        assert mid[i] == Underscored(title)[i];
      }
    }
    FramedName(mid);
    "podcast_script_" + mid + ".txt"
  }

  /** The prefix and the extension around a middle part without spaces. */
  lemma FramedName(mid: string)
    requires ' ' !in mid
    ensures var name := "podcast_script_" + mid + ".txt";
      && name[..15] == "podcast_script_"
      && name[|name| - 4..] == ".txt"
      && (forall i | 0 <= i < |mid| :: name[15 + i] == mid[i])
      && ' ' !in name
  {
    var name := "podcast_script_" + mid + ".txt";
    assert name[..15] == "podcast_script_";
    assert name[|name| - 4..] == ".txt";
    forall i | 0 <= i < |name| ensures name[i] != ' ' {
      if 15 <= i < 15 + |mid| {
        assert name[i] == mid[i - 15];
      }
    }
  }

  /** Only the first fifty characters of the title reach the file name. */
  lemma FileNameUsesFirstFifty(a: string, b: string)
    requires a[..Min(50, |a|)] == b[..Min(50, |b|)]
    ensures TranscriptFileName(a) == TranscriptFileName(b)
  {
    var m := Min(50, |a|);
    assert |b[..Min(50, |b|)]| == m;
    var x := TranscriptFileName(a);
    var y := TranscriptFileName(b);
    forall i | 0 <= i < |x| ensures x[i] == y[i] {
      if 15 <= i < 15 + m {
        assert a[i - 15] == a[..m][i - 15] == b[..Min(50, |b|)][i - 15] == b[i - 15];
      } else if i >= 15 + m {
        assert x[i] == x[|x| - 4..][i - 15 - m];
        assert y[i] == y[|y| - 4..][i - 15 - m];
      } else {
        assert x[i] == x[..15][i];
        assert y[i] == y[..15][i];
      }
    }
  }

  // ------------------------------------------------------------ script view

  /** The Markdown line that shows one turn on screen. */
  function ViewLine(t: Turn, hostName: string, guestName: string): string {
    if LowerAll(ShownSpeaker(t)) == "host" then
      "**\U{1F3A4} " + hostName + " (Host):** " + ShownText(t)
    else
      "**\U{1F465} " + guestName + " (Guest):** " + ShownText(t)
  }

  /** The on-screen script: one line per turn, with a `---` rule between
      consecutive turns but not after the last. */
  function ScriptView(turns: seq<Turn>, hostName: string, guestName: string): (view: seq<string>)
    ensures |turns| == 0 ==> view == []
    ensures |turns| > 0 ==> |view| == 2 * |turns| - 1
    ensures forall k | 0 <= k < |turns| :: view[2 * k] == ViewLine(turns[k], hostName, guestName)
    ensures forall k | 0 <= k < |turns| - 1 :: view[2 * k + 1] == "---"
  {
    if |turns| == 0 then []
    else if |turns| == 1 then [ViewLine(turns[0], hostName, guestName)]
    else
      var rest := ScriptView(turns[1..], hostName, guestName);
      var view := [ViewLine(turns[0], hostName, guestName), "---"] + rest;
      assert forall j | 0 <= j < |turns| - 1 :: view[2 * (j + 1)] == rest[2 * j];
      assert forall k | 0 <= k < |turns| - 1 :: view[2 * k + 1] == "---" by {
        forall k | 0 <= k < |turns| - 1 ensures view[2 * k + 1] == "---" {
          if k > 0 {
            var j := k - 1;
            assert view[2 * k + 1] == rest[2 * j + 1];
          }
        }
      }
      view
  }

  /** The view shows a turn as the host's exactly when the episode is voiced
      with the host voice for it: the defaults differ (`'Unknown'` on screen,
      `""` in the assembler) but neither lowercases to `"host"`. */
  lemma ViewAgreesWithVoice(t: Turn, hostName: string, guestName: string, hostVoice: string, guestVoice: string)
    requires hostVoice != guestVoice
    ensures ViewLine(t, hostName, guestName)[..3] == "**\U{1F3A4}"
        <==> EpisodeAssembly.VoiceFor(t, hostVoice, guestVoice) == hostVoice
  {
    var line := ViewLine(t, hostName, guestName);
    if t.speaker.None? {
      assert LowerAll("Unknown")[0] == 'u';
    }
    assert IsHostTurn(t) <==> LowerAll(ShownSpeaker(t)) == "host";
    if LowerAll(ShownSpeaker(t)) == "host" {
      assert line[..3] == "**\U{1F3A4}";
    } else {
      assert line[2] == '\U{1F465}';
    }
  }
}
