/** `synthesize_episode` of the backend (backend/utils/audio.py): walk the
    script in order, skip blank turns, synthesize each remaining turn with the
    host or the guest voice, and append the clip followed by a fixed gap of
    silence. Audio is a sequence of abstract segments with durations; the
    text-to-speech endpoint is an oracle that may fail; encoding to MP3 is not
    modelled. */
module EpisodeAssembly {
  import opened Results
  import opened Text
  import opened Script

  /** Why one text-to-speech call failed: `raise_for_status` on a non-success
      response, or a transport error (connection failure, 60-second timeout). */
  datatype SynthError = HttpError(status: int, body: string) | TransportError(reason: string)

  /** The text-to-speech call `_line_to_audio(text, voice_id, key)`: the
      duration in milliseconds of the decoded clip, or the error it raised. */
  type Synthesizer = (string, string, string) -> Result<nat, SynthError>

  /** One call to the synthesizer: the text and the voice id it was given. */
  datatype Request = Request(text: string, voice: string)

  /** A piece of the episode's timeline. */
  datatype Segment = Clip(text: string, voice: string, ms: nat) | Silence(ms: nat)

  /** What a successful run returns: the audio and its file name. */
  datatype Episode = Episode(audio: seq<Segment>, filename: string)

  const EpisodeFileName := "episode.mp3"

  /** The gap after each turn, `max(0, pause_ms)`: a negative pause is clamped,
      never rejected. */
  function GapMs(pauseMs: int): (g: nat)
    ensures g >= pauseMs
    ensures g == 0 || g == pauseMs
  {
    if pauseMs < 0 then 0 else pauseMs
  }

  /** A turn is synthesized unless its text is missing, empty or whitespace. */
  predicate Kept(t: Turn) {
    !IsBlank(TextOf(t))
  }

  /** The voice a turn is spoken in. */
  function VoiceFor(t: Turn, hostVoice: string, guestVoice: string): (v: string)
    ensures v == hostVoice || v == guestVoice
    ensures hostVoice != guestVoice ==>
      (v == hostVoice <==> t.speaker.Some? && EqualsIgnoreCase(t.speaker.value, "host"))
  {
    HostTurnIgnoresCase(t);
    if IsHostTurn(t) then hostVoice else guestVoice
  }

  /** The synthesizer calls one turn asks for: none for a blank turn. */
  function TurnRequests(t: Turn, hostVoice: string, guestVoice: string): seq<Request> {
    if Kept(t) then [Request(TextOf(t), VoiceFor(t, hostVoice, guestVoice))] else []
  }

  /** Reference definition of the calls a whole script asks for, in order. */
  function Requests(script: seq<Turn>, hostVoice: string, guestVoice: string): seq<Request> {
    if |script| == 0 then []
    else TurnRequests(script[0], hostVoice, guestVoice) + Requests(script[1..], hostVoice, guestVoice)
  }

  /** The turns that are synthesized, in script order. */
  function KeptTurns(script: seq<Turn>): seq<Turn> {
    if |script| == 0 then []
    else (if Kept(script[0]) then [script[0]] else []) + KeptTurns(script[1..])
  }

  /** Reference definition of the timeline the calls `reqs` produce: clip then
      gap for each call, stopping at the first call that fails. */
  function Render(reqs: seq<Request>, key: string, gap: nat, tts: Synthesizer): Result<seq<Segment>, SynthError> {
    if |reqs| == 0 then Ok([])
    else match tts(reqs[0].text, reqs[0].voice, key)
      case Err(e) => Err(e)
      case Ok(ms) =>
        match Render(reqs[1..], key, gap, tts)
        case Err(e) => Err(e)
        case Ok(rest) => Ok([Clip(reqs[0].text, reqs[0].voice, ms), Silence(gap)] + rest)
  }

  /** Total duration of a timeline. */
  function TotalMs(audio: seq<Segment>): nat {
    if |audio| == 0 then 0 else audio[0].ms + TotalMs(audio[1..])
  }

  /** Duration of the speech in a timeline. */
  function SpeechMs(audio: seq<Segment>): nat {
    if |audio| == 0 then 0 else (if audio[0].Clip? then audio[0].ms else 0) + SpeechMs(audio[1..])
  }

  /** Number of silence segments in a timeline. */
  function GapCount(audio: seq<Segment>): nat {
    if |audio| == 0 then 0 else (if audio[0].Silence? then 1 else 0) + GapCount(audio[1..])
  }

  lemma {:induction false} RequestsAppend(a: seq<Turn>, b: seq<Turn>, hostVoice: string, guestVoice: string)
    ensures Requests(a + b, hostVoice, guestVoice) == Requests(a, hostVoice, guestVoice) + Requests(b, hostVoice, guestVoice)
    decreases |a|
  {
    if |a| == 0 {
      assert a + b == b;
    } else {
      assert (a + b)[0] == a[0];
      assert (a + b)[1..] == a[1..] + b;
      RequestsAppend(a[1..], b, hostVoice, guestVoice);
      var h := TurnRequests(a[0], hostVoice, guestVoice);
      calc {
        Requests(a + b, hostVoice, guestVoice);
        h + Requests(a[1..] + b, hostVoice, guestVoice);
        h + (Requests(a[1..], hostVoice, guestVoice) + Requests(b, hostVoice, guestVoice));
        (h + Requests(a[1..], hostVoice, guestVoice)) + Requests(b, hostVoice, guestVoice);
      }
    }
  }

  lemma {:induction false} RenderAppend(a: seq<Request>, b: seq<Request>, key: string, gap: nat, tts: Synthesizer)
    ensures Render(a + b, key, gap, tts) ==
      match Render(a, key, gap, tts)
      case Err(e) => Err(e)
      case Ok(p) =>
        match Render(b, key, gap, tts)
        case Err(e) => Err(e)
        case Ok(q) => Ok(p + q)
    decreases |a|
  {
    if |a| == 0 {
      assert a + b == b;
      match Render(b, key, gap, tts)
      case Err(_) =>
      case Ok(q) => assert [] + q == q;
    } else {
      assert (a + b)[0] == a[0];
      assert (a + b)[1..] == a[1..] + b;
      RenderAppend(a[1..], b, key, gap, tts);
      match tts(a[0].text, a[0].voice, key)
      case Err(_) =>
      case Ok(ms) =>
        var h := [Clip(a[0].text, a[0].voice, ms), Silence(gap)];
        match Render(a[1..], key, gap, tts)
        case Err(_) =>
        case Ok(p) =>
          match Render(b, key, gap, tts)
          case Err(_) =>
          case Ok(q) =>
            assert h + (p + q) == (h + p) + q;
    }
  }

  /** One step of the loop over a kept turn whose call succeeds. */
  lemma StepKept(done: seq<Turn>, t: Turn, hostVoice: string, guestVoice: string, key: string,
                 gap: nat, tts: Synthesizer, output: seq<Segment>, ms: nat)
    requires Render(Requests(done, hostVoice, guestVoice), key, gap, tts) == Ok(output)
    requires Kept(t)
    requires tts(TextOf(t), VoiceFor(t, hostVoice, guestVoice), key) == Ok(ms)
    ensures Requests(done + [t], hostVoice, guestVoice) ==
      Requests(done, hostVoice, guestVoice) + [Request(TextOf(t), VoiceFor(t, hostVoice, guestVoice))]
    ensures Render(Requests(done + [t], hostVoice, guestVoice), key, gap, tts) ==
      Ok(output + [Clip(TextOf(t), VoiceFor(t, hostVoice, guestVoice), ms), Silence(gap)])
  {
    var req := Request(TextOf(t), VoiceFor(t, hostVoice, guestVoice));
    RequestsAppend(done, [t], hostVoice, guestVoice);
    assert Requests([t], hostVoice, guestVoice) == [req];
    RenderAppend(Requests(done, hostVoice, guestVoice), [req], key, gap, tts);
    var pair := [Clip(req.text, req.voice, ms), Silence(gap)];
    assert [req][1..] == [];
    assert pair + [] == pair;
    assert Render([req], key, gap, tts) == Ok(pair);
  }

  /** One step of the loop over a blank turn. */
  lemma StepSkipped(done: seq<Turn>, t: Turn, hostVoice: string, guestVoice: string)
    requires !Kept(t)
    ensures Requests(done + [t], hostVoice, guestVoice) == Requests(done, hostVoice, guestVoice)
  {
    RequestsAppend(done, [t], hostVoice, guestVoice);
    assert Requests([t], hostVoice, guestVoice) == [];
  }

  /** The loop stops at a kept turn whose call fails: the whole script renders
      to that error, and the calls so far are a prefix of all the calls. */
  lemma StepFailed(done: seq<Turn>, t: Turn, rest: seq<Turn>, hostVoice: string, guestVoice: string,
                   key: string, gap: nat, tts: Synthesizer, output: seq<Segment>, e: SynthError)
    requires Render(Requests(done, hostVoice, guestVoice), key, gap, tts) == Ok(output)
    requires Kept(t)
    requires tts(TextOf(t), VoiceFor(t, hostVoice, guestVoice), key) == Err(e)
    ensures Requests(done, hostVoice, guestVoice) + [Request(TextOf(t), VoiceFor(t, hostVoice, guestVoice))]
      <= Requests(done + [t] + rest, hostVoice, guestVoice)
    ensures Render(Requests(done + [t] + rest, hostVoice, guestVoice), key, gap, tts) == Err(e)
  {
    var req := Request(TextOf(t), VoiceFor(t, hostVoice, guestVoice));
    var calls := Requests(done, hostVoice, guestVoice) + [req];
    RequestsAppend(done, [t], hostVoice, guestVoice);
    assert Requests([t], hostVoice, guestVoice) == [req];
    RequestsAppend(done + [t], rest, hostVoice, guestVoice);
    assert [req][1..] == [];
    assert Render([req], key, gap, tts) == Err(e);
    RenderAppend(Requests(done, hostVoice, guestVoice), [req], key, gap, tts);
    RenderAppend(calls, Requests(rest, hostVoice, guestVoice), key, gap, tts);
  }

  /** The assembly loop. `calls` records every synthesizer call in the order it
      was made; the result is the episode or the first call's error. */
  method SynthesizeEpisode(script: seq<Turn>, pauseMs: int, hostVoice: string, guestVoice: string,
                           key: string, tts: Synthesizer)
    returns (calls: seq<Request>, r: Result<Episode, SynthError>)
    ensures calls <= Requests(script, hostVoice, guestVoice)
    ensures r.Ok? ==> calls == Requests(script, hostVoice, guestVoice)
    ensures r.Ok? ==> r.value.filename == EpisodeFileName
    ensures r.Err? ==> |calls| > 0
    ensures r.Err? ==> tts(calls[|calls| - 1].text, calls[|calls| - 1].voice, key) == Err(r.error)
    // the loop stops at the first failing call: every call before it succeeded
    ensures r.Err? ==> forall j | 0 <= j < |calls| - 1 :: tts(calls[j].text, calls[j].voice, key).Ok?
    ensures r.Ok? ==> forall j | 0 <= j < |calls| :: tts(calls[j].text, calls[j].voice, key).Ok?
    ensures Render(Requests(script, hostVoice, guestVoice), key, GapMs(pauseMs), tts) ==
      match r
      case Ok(e) => Ok(e.audio)
      case Err(e) => Err(e)
  {
    var output: seq<Segment> := [];
    var gap := GapMs(pauseMs);
    calls := [];
    for i := 0 to |script|
      invariant calls == Requests(script[..i], hostVoice, guestVoice)
      invariant Render(calls, key, gap, tts) == Ok(output)
    {
      var turn := script[i];
      assert script[..i + 1] == script[..i] + [turn];
      var speaker := LowerAll(turn.speaker.GetOr([]));
      var text := turn.text.GetOr([]);
      if IsBlank(text) {
        StepSkipped(script[..i], turn, hostVoice, guestVoice);
      } else {
        var voice := if speaker == "host" then hostVoice else guestVoice;
        assert voice == VoiceFor(turn, hostVoice, guestVoice);
        var clip := tts(text, voice, key);
        if clip.Err? {
          assert script == script[..i] + [turn] + script[i + 1..];
          StepFailed(script[..i], turn, script[i + 1..], hostVoice, guestVoice, key, gap, tts, output, clip.error);
          RenderAllOk(calls, key, gap, tts);
          calls := calls + [Request(text, voice)];
          r := Err(clip.error);
          return;
        }
        StepKept(script[..i], turn, hostVoice, guestVoice, key, gap, tts, output, clip.value);
        calls := calls + [Request(text, voice)];
        output := output + [Clip(text, voice, clip.value), Silence(gap)];
      }
    }
    assert script[..|script|] == script;
    RenderAllOk(calls, key, gap, tts);
    r := Ok(Episode(output, EpisodeFileName));
  }

  /** A timeline is produced exactly when every call succeeds; otherwise the
      error is that of the first call that fails. */
  lemma {:induction false} RenderAllOk(reqs: seq<Request>, key: string, gap: nat, tts: Synthesizer)
    ensures Render(reqs, key, gap, tts).Ok? <==>
      forall i | 0 <= i < |reqs| :: tts(reqs[i].text, reqs[i].voice, key).Ok?
    decreases |reqs|
  {
    if |reqs| > 0 {
      RenderAllOk(reqs[1..], key, gap, tts);
      assert forall i | 1 <= i < |reqs| :: reqs[i] == reqs[1..][i - 1];
    }
  }

  /** The first failing call decides the error: every call before it
      succeeded. */
  lemma {:induction false} RenderFirstError(reqs: seq<Request>, key: string, gap: nat, tts: Synthesizer)
    requires Render(reqs, key, gap, tts).Err?
    ensures exists i | 0 <= i < |reqs| ::
      && tts(reqs[i].text, reqs[i].voice, key) == Err(Render(reqs, key, gap, tts).error)
      && forall j | 0 <= j < i :: tts(reqs[j].text, reqs[j].voice, key).Ok?
    decreases |reqs|
  {
    var e := Render(reqs, key, gap, tts).error;
    if tts(reqs[0].text, reqs[0].voice, key).Err? {
      assert tts(reqs[0].text, reqs[0].voice, key) == Err(e);
    } else {
      RenderFirstError(reqs[1..], key, gap, tts);
      var i :| 0 <= i < |reqs[1..]| &&
        tts(reqs[1..][i].text, reqs[1..][i].voice, key) == Err(e) &&
        forall j | 0 <= j < i :: tts(reqs[1..][j].text, reqs[1..][j].voice, key).Ok?;
      assert tts(reqs[i + 1].text, reqs[i + 1].voice, key) == Err(e);
      forall j | 0 <= j < i + 1
        ensures tts(reqs[j].text, reqs[j].voice, key).Ok?
      {
        if j > 0 {
          assert reqs[j] == reqs[1..][j - 1];
        }
      }
    }
  }

  /** Ordering and gap policy: the timeline is clip, gap, clip, gap, ... in
      call order, the clip of the i-th call at position 2i with the duration
      the synthesizer returned, and a gap after every clip including the last. */
  lemma {:induction false} RenderShape(reqs: seq<Request>, key: string, gap: nat, tts: Synthesizer)
    requires Render(reqs, key, gap, tts).Ok?
    ensures |Render(reqs, key, gap, tts).value| == 2 * |reqs|
    ensures forall i | 0 <= i < |reqs| ::
      var a := Render(reqs, key, gap, tts).value;
      && a[2 * i] == Clip(reqs[i].text, reqs[i].voice, a[2 * i].ms)
      && tts(reqs[i].text, reqs[i].voice, key) == Ok(a[2 * i].ms)
      && a[2 * i + 1] == Silence(gap)
    decreases |reqs|
  {
    if |reqs| > 0 {
      var a := Render(reqs, key, gap, tts).value;
      var rest := Render(reqs[1..], key, gap, tts).value;
      RenderShape(reqs[1..], key, gap, tts);
      assert a == [a[0], a[1]] + rest;
      forall i | 1 <= i < |reqs|
        ensures a[2 * i] == Clip(reqs[i].text, reqs[i].voice, a[2 * i].ms)
        ensures tts(reqs[i].text, reqs[i].voice, key) == Ok(a[2 * i].ms)
        ensures a[2 * i + 1] == Silence(gap)
      {
        assert reqs[i] == reqs[1..][i - 1];
        assert a[2 * i] == rest[2 * (i - 1)];
        assert a[2 * i + 1] == rest[2 * (i - 1) + 1];
      }
    }
  }

  /** Gap count and duration: n calls give exactly n gaps, and the episode
      lasts as long as its speech plus n times the gap. */
  lemma {:induction false} RenderDuration(reqs: seq<Request>, key: string, gap: nat, tts: Synthesizer)
    requires Render(reqs, key, gap, tts).Ok?
    ensures GapCount(Render(reqs, key, gap, tts).value) == |reqs|
    ensures TotalMs(Render(reqs, key, gap, tts).value) == SpeechMs(Render(reqs, key, gap, tts).value) + |reqs| * gap
    decreases |reqs|
  {
    if |reqs| > 0 {
      var a := Render(reqs, key, gap, tts).value;
      var rest := Render(reqs[1..], key, gap, tts).value;
      RenderDuration(reqs[1..], key, gap, tts);
      assert a[1..] == [Silence(gap)] + rest;
      assert a[1..][1..] == rest;
    }
  }

  /** A blank turn changes nothing: removing it leaves the calls unchanged. */
  lemma RequestsSkipBlank(a: seq<Turn>, t: Turn, b: seq<Turn>, hostVoice: string, guestVoice: string)
    requires !Kept(t)
    ensures Requests(a + [t] + b, hostVoice, guestVoice) == Requests(a + b, hostVoice, guestVoice)
  {
    RequestsAppend(a + [t], b, hostVoice, guestVoice);
    StepSkipped(a, t, hostVoice, guestVoice);
    RequestsAppend(a, b, hostVoice, guestVoice);
  }

  /** Call count and voice choice: one call per kept turn, in script order,
      with that turn's text and voice. */
  lemma {:induction false} RequestsFollowKeptTurns(script: seq<Turn>, hostVoice: string, guestVoice: string)
    ensures |Requests(script, hostVoice, guestVoice)| == |KeptTurns(script)|
    ensures forall i | 0 <= i < |KeptTurns(script)| ::
      && Kept(KeptTurns(script)[i])
      && Requests(script, hostVoice, guestVoice)[i] ==
           Request(TextOf(KeptTurns(script)[i]), VoiceFor(KeptTurns(script)[i], hostVoice, guestVoice))
    decreases |script|
  {
    if |script| > 0 {
      RequestsFollowKeptTurns(script[1..], hostVoice, guestVoice);
    }
  }

  /** A script of blank turns only (or no turns) makes no call and yields an
      empty, zero-length episode. */
  lemma {:induction false} BlankScriptIsEmpty(script: seq<Turn>, hostVoice: string, guestVoice: string,
                                               key: string, gap: nat, tts: Synthesizer)
    requires forall i | 0 <= i < |script| :: !Kept(script[i])
    ensures Requests(script, hostVoice, guestVoice) == []
    ensures Render(Requests(script, hostVoice, guestVoice), key, gap, tts) == Ok([])
    decreases |script|
  {
    if |script| > 0 {
      assert !Kept(script[0]);
      BlankScriptIsEmpty(script[1..], hostVoice, guestVoice, key, gap, tts);
    }
  }

  /** The two turns of the exchange below ask for one call each, the host's
      in the host voice and the guest's in the guest voice. */
  lemma TwoTurnRequests()
    ensures Requests([Turn(Some("Host"), Some("Hi there.")), Turn(Some("guest"), Some("Hello!"))],
                     "host-voice", "guest-voice")
         == [Request("Hi there.", "host-voice"), Request("Hello!", "guest-voice")]
  {
    var t1 := Turn(Some("Host"), Some("Hi there."));
    var t2 := Turn(Some("guest"), Some("Hello!"));
    assert !IsSpace('H');
    assert "Hi there."[0] == 'H' && "Hello!"[0] == 'H';
    assert Kept(t1) && Kept(t2);
    assert LowerAll("Host") == "host";
    assert VoiceFor(t1, "host-voice", "guest-voice") == "host-voice";
    assert LowerAll("guest") != "host";
    var r1 := Request("Hi there.", "host-voice");
    var r2 := Request("Hello!", "guest-voice");
    assert TurnRequests(t1, "host-voice", "guest-voice") == [r1];
    assert TurnRequests(t2, "host-voice", "guest-voice") == [r2];
    assert [t1, t2][1..] == [t2];
    assert [t2][1..] == [];
    assert Requests([t2], "host-voice", "guest-voice") == [r2] + [];
    assert Requests([t1, t2], "host-voice", "guest-voice") == [r1] + [r2];
    assert [r1] + [r2] == [r1, r2];
  }

  /** A two-turn exchange with a 500 ms pause: two clips, each followed by a
      500 ms gap (the gap after the last turn is kept). */
  lemma TwoTurnEpisode(key: string, tts: Synthesizer, hostMs: nat, guestMs: nat)
    requires tts("Hi there.", "host-voice", key) == Ok(hostMs)
    requires tts("Hello!", "guest-voice", key) == Ok(guestMs)
    ensures Render(Requests([Turn(Some("Host"), Some("Hi there.")), Turn(Some("guest"), Some("Hello!"))],
                            "host-voice", "guest-voice"), key, GapMs(500), tts)
         == Ok([Clip("Hi there.", "host-voice", hostMs), Silence(500), Clip("Hello!", "guest-voice", guestMs), Silence(500)])
  {
    TwoTurnRequests();
    var r1 := Request("Hi there.", "host-voice");
    var r2 := Request("Hello!", "guest-voice");
    var reqs := [r1, r2];
    assert reqs[1..] == [r2];
    assert [r2][1..] == [];
    var c1 := [Clip("Hi there.", "host-voice", hostMs), Silence(500)];
    var c2 := [Clip("Hello!", "guest-voice", guestMs), Silence(500)];
    assert Render([r2], key, 500, tts) == Ok(c2 + []);
    assert c2 + [] == c2;
    assert Render(reqs, key, 500, tts) == Ok(c1 + c2);
    assert GapMs(500) == 500;
    assert c1 + c2 == [Clip("Hi there.", "host-voice", hostMs), Silence(500), Clip("Hello!", "guest-voice", guestMs), Silence(500)];
  }
}
