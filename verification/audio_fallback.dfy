/** The audio step of the Streamlit page (`render_audio_generation` in
    app_streamlit.py): decide whether audio can be generated at all, run the
    advanced synthesizer, fall back to the basic one when it raises, label the
    result's format from the strategy used and the file name, and report
    progress. Both synthesizers live in modules this model does not contain;
    each is an opaque strategy that reports progress and then returns a file or
    raises. */
module AudioFallback {
  import opened Results
  import opened Text
  import opened Script

  newtype byte = x: int | 0 <= x < 256

  /** A voice picked in the sidebar: its display name and its id. */
  datatype Voice = Voice(name: string, id: string)

  /** The arguments both strategies receive: the script, the pause, the two
      voice ids and the text-to-speech key. */
  datatype Job = Job(script: seq<Turn>, pauseMs: int, hostVoiceId: string, guestVoiceId: string, key: string)

  /** What a strategy returns on success: the audio bytes and a file name. */
  datatype AudioFile = AudioFile(bytes: seq<byte>, filename: string)

  /** One run of a strategy: the percentages it passed to its progress
      callback, then its result or the text of the exception it raised. */
  datatype StrategyRun = StrategyRun(reported: seq<int>, outcome: Result<AudioFile, string>)

  type Strategy = Job -> StrategyRun

  /** The basic synthesizer is imported only when needed; the import itself
      may raise. */
  datatype BasicModule = ImportFailed(reason: string) | Loaded(run: Strategy)

  /** A strategy invocation, with the arguments it was given. */
  datatype Call = AdvancedCall(job: Job) | BasicCall(job: Job)

  /** Who moved the progress bar: the page itself, or a strategy's callback. */
  datatype Reporter = Page | AdvancedPass | BasicPass
  datatype Tick = Tick(percent: int, source: Reporter)

  /** The three format fields the page stores with the audio. */
  datatype Format = Format(caption: string, mime: string, playback: string)

  /** The audio state recorded in the session after a success. */
  datatype AudioState = AudioState(bytes: seq<byte>, filename: string, format: Format)

  /** Everything one press of the generate button does. */
  datatype Generation = Generation(calls: seq<Call>, ticks: seq<Tick>, outcome: Result<AudioState, string>)

  /** The defaults, kept whenever the advanced synthesizer succeeds. */
  const AdvancedFormat := Format("MP3", "audio/mp3", "audio/mp3")
  const BasicMp3Format := Format("MP3 (basic concat)", "audio/mp3", "audio/mp3")
  const BasicWavFormat := Format("WAV (basic)", "audio/wav", "audio/wav")

  /** The format after the fallback, chosen from the returned file name. */
  function BasicFormat(filename: string): (f: Format)
    ensures f == BasicMp3Format <==> EndsWithIgnoreCase(filename, ".mp3")
    ensures f == BasicWavFormat <==> !EndsWithIgnoreCase(filename, ".mp3")
  {
    if EndsWithIgnoreCase(filename, ".mp3") then BasicMp3Format else BasicWavFormat
  }

  /** The single error raised when both strategies fail. */
  function CombinedError(advanced: string, basic: string): string {
    "Advanced synthesis failed (" + advanced + "); basic fallback failed (" + basic + ")"
  }

  /** `part` occurs in `msg` starting at position `i`. */
  predicate OccursAt(msg: string, i: int, part: string) {
    0 <= i && i + |part| <= |msg| && msg[i..i + |part|] == part
  }

  /** `part` occurs somewhere in `msg`. */
  predicate Mentions(msg: string, part: string) {
    exists i | 0 <= i <= |msg| :: OccursAt(msg, i, part)
  }

  /** The basic strategy's callback caps every percentage at 90. */
  function Capped(reported: seq<int>): (ticks: seq<Tick>)
    ensures |ticks| == |reported|
    ensures forall i | 0 <= i < |ticks| :: ticks[i].source == BasicPass && ticks[i].percent <= 90
    ensures forall i | 0 <= i < |ticks| :: reported[i] <= 90 ==> ticks[i].percent == reported[i]
    ensures forall i | 0 <= i < |ticks| :: reported[i] > 90 ==> ticks[i].percent == 90
  {
    seq(|reported|, i requires 0 <= i < |reported| => Tick(if reported[i] < 90 then reported[i] else 90, BasicPass))
  }

  /** The advanced strategy's callback passes percentages through. */
  function Passed(reported: seq<int>): (ticks: seq<Tick>)
    ensures |ticks| == |reported|
    ensures forall i | 0 <= i < |ticks| :: ticks[i] == Tick(reported[i], AdvancedPass)
  {
    seq(|reported|, i requires 0 <= i < |reported| => Tick(reported[i], AdvancedPass))
  }

  /** Whether the basic strategy gets to succeed. */
  predicate BasicSucceeds(job: Job, basic: BasicModule) {
    basic.Loaded? && basic.run(job).outcome.Ok?
  }

  /** One press of the generate button: bar to 0, the advanced strategy, on its
      failure the basic one (import, bar to 10, run), and on success the state
      recorded and the bar at 100. */
  function GenerateAudio(job: Job, advanced: Strategy, basic: BasicModule): (g: Generation)
    // every strategy call gets the same script, pause, voices and key; the
    // basic one runs only after the advanced one raised and its import worked
    ensures 1 <= |g.calls| <= 2 && g.calls[0] == AdvancedCall(job)
    ensures forall i | 0 <= i < |g.calls| :: g.calls[i].job == job
    ensures |g.calls| == 2 <==> advanced(job).outcome.Err? && basic.Loaded?
    // an advanced success is recorded as it came, with the MP3 defaults
    ensures advanced(job).outcome.Ok? ==>
      g.outcome == Ok(AudioState(advanced(job).outcome.value.bytes, advanced(job).outcome.value.filename, AdvancedFormat))
    // after the fallback, the file is the basic one and its name picks the format
    ensures advanced(job).outcome.Err? && BasicSucceeds(job, basic) ==>
      var file := basic.run(job).outcome.value;
      && g.outcome.Ok?
      && g.outcome.value.bytes == file.bytes && g.outcome.value.filename == file.filename
      && g.outcome.value.format == BasicFormat(file.filename)
    // the recorded MIME and playback types agree; WAV only comes from the fallback
    ensures g.outcome.Ok? ==> g.outcome.value.format.mime == g.outcome.value.format.playback
    ensures g.outcome.Ok? && g.outcome.value.format.mime == "audio/wav" ==> |g.calls| == 2
    // failure exactly when both strategies fail
    ensures g.outcome.Err? <==> advanced(job).outcome.Err? && !BasicSucceeds(job, basic)
  {
    var first := advanced(job);
    var start := [Tick(0, Page)] + Passed(first.reported);
    match first.outcome
    case Ok(f) =>
      Generation([AdvancedCall(job)], start + [Tick(100, Page)], Ok(AudioState(f.bytes, f.filename, AdvancedFormat)))
    case Err(a) =>
      match basic
      case ImportFailed(b) =>
        Generation([AdvancedCall(job)], start, Err(CombinedError(a, b)))
      case Loaded(run) =>
        var second := run(job);
        var ticks := start + [Tick(10, Page)] + Capped(second.reported);
        match second.outcome
        case Ok(f) =>
          Generation([AdvancedCall(job), BasicCall(job)], ticks + [Tick(100, Page)],
                     Ok(AudioState(f.bytes, f.filename, BasicFormat(f.filename))))
        case Err(b) =>
          Generation([AdvancedCall(job), BasicCall(job)], ticks, Err(CombinedError(a, b)))
  }

  /** When both strategies fail, no audio state is recorded and the one error
      raised names both failures. */
  lemma DoubleFailure(job: Job, advanced: Strategy, basic: BasicModule)
    ensures var g := GenerateAudio(job, advanced, basic);
      g.outcome.Err? ==>
        && Mentions(g.outcome.error, advanced(job).outcome.error)
        && Mentions(g.outcome.error, if basic.ImportFailed? then basic.reason else basic.run(job).outcome.error)
  {
    var g := GenerateAudio(job, advanced, basic);
    if g.outcome.Err? {
      var a := advanced(job).outcome.error;
      var b := if basic.ImportFailed? then basic.reason else basic.run(job).outcome.error;
      var head := "Advanced synthesis failed (";
      var mid := "); basic fallback failed (";
      var msg := head + a + mid + b + ")";
      assert g.outcome.error == msg;
      assert OccursAt(msg, |head|, a);
      var pre := head + a + mid;
      assert msg == pre + (b + ")");
      assert OccursAt(msg, |pre|, b);
    }
  }

  /** The bar starts at 0; while the basic strategy runs it never passes 90;
      the page sets 100 only after a success, as the last step. */
  lemma ProgressRules(job: Job, advanced: Strategy, basic: BasicModule)
    ensures var g := GenerateAudio(job, advanced, basic);
      && |g.ticks| > 0 && g.ticks[0] == Tick(0, Page)
      && (forall i | 0 <= i < |g.ticks| :: g.ticks[i].source == BasicPass ==> g.ticks[i].percent <= 90)
      && (Tick(100, Page) in g.ticks <==> g.outcome.Ok?)
      && (g.outcome.Ok? ==> g.ticks[|g.ticks| - 1] == Tick(100, Page))
  {
    var g := GenerateAudio(job, advanced, basic);
    var first := advanced(job);
    var start := [Tick(0, Page)] + Passed(first.reported);
    assert Tick(100, Page) !in start by {
      forall i | 0 <= i < |start| ensures start[i] != Tick(100, Page) {
        if i > 0 {
          assert start[i] == Passed(first.reported)[i - 1];
        }
      }
    }
    if first.outcome.Err? && basic.Loaded? {
      var ticks := start + [Tick(10, Page)] + Capped(basic.run(job).reported);
      assert Tick(100, Page) !in ticks by {
        forall i | 0 <= i < |ticks| ensures ticks[i] != Tick(100, Page) {
          if i > |start| {
            assert ticks[i] == Capped(basic.run(job).reported)[i - |start| - 1];
          } else if i < |start| {
            assert ticks[i] == start[i];
          }
        }
      }
    }
  }

  /** At position `at` of trace `t`: the page's 10, then each report of `b`
      capped at 90 by the basic strategy's callback. */
  predicate FallbackTicksAt(t: seq<Tick>, at: nat, b: seq<int>) {
    && |t| >= at + 1 + |b|
    && t[at] == Tick(10, Page)
    && (forall i | 0 <= i < |b| :: t[at + 1 + i] == Tick(if b[i] <= 90 then b[i] else 90, BasicPass))
  }

  /** After the page's 0, the advanced callback's reports come through as given. */
  lemma TraceAdvanced(job: Job, advanced: Strategy, basic: BasicModule)
    ensures var g := GenerateAudio(job, advanced, basic);
      var adv := advanced(job).reported;
      && |g.ticks| > |adv|
      && (forall i | 0 <= i < |adv| :: g.ticks[1 + i] == Tick(adv[i], AdvancedPass))
  {
    var g := GenerateAudio(job, advanced, basic);
    var adv := advanced(job).reported;
    var start := [Tick(0, Page)] + Passed(adv);
    assert g.ticks[..|start|] == start;
    forall i | 0 <= i < |adv| ensures g.ticks[1 + i] == Tick(adv[i], AdvancedPass) {
      assert g.ticks[1 + i] == start[1 + i] == Passed(adv)[i];
    }
  }

  /** The page's layout puts the fallback's ticks right after the advanced ones. */
  lemma LayoutFallback(adv: seq<int>, b: seq<int>, tail: seq<Tick>)
    ensures FallbackTicksAt([Tick(0, Page)] + Passed(adv) + [Tick(10, Page)] + Capped(b) + tail, 1 + |adv|, b)
  {
    var t := [Tick(0, Page)] + Passed(adv) + [Tick(10, Page)] + Capped(b) + tail;
    forall i | 0 <= i < |b|
      ensures t[2 + |adv| + i] == Tick(if b[i] <= 90 then b[i] else 90, BasicPass)
    {
      assert t[2 + |adv| + i] == Capped(b)[i];
    }
  }

  /** On the fallback, the page's 10 and then each basic report capped at 90. */
  lemma TraceBasic(job: Job, advanced: Strategy, basic: BasicModule)
    requires advanced(job).outcome.Err? && basic.Loaded?
    ensures FallbackTicksAt(GenerateAudio(job, advanced, basic).ticks, 1 + |advanced(job).reported|, basic.run(job).reported)
  {
    var tail: seq<Tick> := if basic.run(job).outcome.Ok? then [Tick(100, Page)] else [];
    var t := [Tick(0, Page)] + Passed(advanced(job).reported) + [Tick(10, Page)] + Capped(basic.run(job).reported) + tail;
    LayoutFallback(advanced(job).reported, basic.run(job).reported, tail);
    assert GenerateAudio(job, advanced, basic).ticks == t;
  }

  /** The trace itself: the page's 0, the advanced callback's reports as
      given, on the fallback the page's 10 and each basic report capped at 90,
      and the final 100 after a success; no other tick. */
  lemma ProgressTrace(job: Job, advanced: Strategy, basic: BasicModule)
    ensures var g := GenerateAudio(job, advanced, basic);
      var adv := advanced(job).reported;
      && |g.ticks| > |adv|
      && (forall i | 0 <= i < |adv| :: g.ticks[1 + i] == Tick(adv[i], AdvancedPass))
    ensures var g := GenerateAudio(job, advanced, basic);
      var adv := advanced(job).reported;
      advanced(job).outcome.Err? && basic.Loaded? ==> FallbackTicksAt(g.ticks, 1 + |adv|, basic.run(job).reported)
    ensures var g := GenerateAudio(job, advanced, basic);
      var adv := advanced(job).reported;
      var fallback := if advanced(job).outcome.Err? && basic.Loaded? then 1 + |basic.run(job).reported| else 0;
      |g.ticks| == 1 + |adv| + fallback + (if g.outcome.Ok? then 1 else 0)
  {
    TraceAdvanced(job, advanced, basic);
    if advanced(job).outcome.Err? && basic.Loaded? {
      TraceBasic(job, advanced, basic);
    }
  }

  /** What the audio section offers before any synthesis. */
  datatype Panel =
    | Hidden                                  // no script yet
    | TranscriptOnly(notice: string)          // audio libraries missing
    | ConfigureVoices                         // a voice is not selected
    | ReadyToGenerate(hostVoiceId: string, guestVoiceId: string)

  /** The guards at the top of the audio section: no script hides it, missing
      audio libraries turn it into the transcript offer, a missing voice stops
      it, and otherwise the button runs `GenerateAudio` with the two ids. */
  function AudioPanel(scriptReady: bool, audioError: Option<string>, host: Option<Voice>, guest: Option<Voice>): (p: Panel)
    ensures p.ReadyToGenerate? <==> scriptReady && audioError.None? && host.Some? && guest.Some?
    ensures p.ReadyToGenerate? ==> p.hostVoiceId == host.value.id && p.guestVoiceId == guest.value.id
    ensures p.TranscriptOnly? <==> scriptReady && audioError.Some?
    ensures p.TranscriptOnly? ==> p.notice == audioError.value
  {
    if !scriptReady then Hidden
    else if audioError.Some? then TranscriptOnly(audioError.value)
    else if host.None? || guest.None? then ConfigureVoices
    else ReadyToGenerate(host.value.id, guest.value.id)
  }
}
