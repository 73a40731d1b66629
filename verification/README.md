# Podcast generator core in Dafny

This project models the sequential logic of a podcast generator. The generator turns a web
article into a two-speaker dialogue and then into one audio file. Three pieces are modelled:

- **Episode assembly** (`backend/utils/audio.py`, `synthesize_episode`). The loop walks the script
  in order and skips blank turns. It picks the host or guest voice with a case-insensitive speaker
  test. It calls the text-to-speech endpoint once per kept turn and appends the clip followed by a
  `max(0, pause_ms)` gap. Audio is a sequence of abstract `Clip`/`Silence` segments with durations.
  The endpoint is a fallible oracle.
- **The Streamlit audio step and transcript** (`app_streamlit.py`).
  - The advanced synthesizer is tried first, and the basic one runs when it raises. A double failure
    raises one combined error.
  - The format label, MIME type and playback type follow the strategy used and the file name.
  - Progress reporting is modelled, as are the guards in front of the button.
  - So are the plain-text transcript, its file name and the on-page script view.
- **Text normalisation** (`utils/scrape.py` and `backend/utils/scrape.py`).
  - `_clean_extracted_text`, `_clean_title` and the URL guard of `scrape_and_clean` are modelled.
  - So are the backend's `_strip`, its two clean-up substitutions and its title fallback.
  - Each regular expression is written out as the matcher Python's `re.sub` behaves as for that
    pattern (module `Regex`): leftmost match, greedy or lazy as written, `.` stopping at a line break,
    `\s` as `str.isspace`.

Modules: `Results` (Option/Result), `Text` (Python string primitives), `Script` (the dialogue turn
record), `EpisodeAssembly`, `AudioFallback`, `Transcript`, `Regex`, `ArticleCleaning`,
`BackendScrape`.

The code appends a gap after every kept turn, the last one included, so N kept turns give N gaps
(`EpisodeAssembly.RenderDuration`, `EpisodeAssembly.TwoTurnEpisode`).

## Model

| member | source | states |
|---|---|---|
| Script.HostTurnIgnoresCase | backend/utils/audio.py:33-37 | a turn is the host's exactly when its speaker is present and equals "host" ignoring case; a missing speaker is never the host |
| EpisodeAssembly.GapMs | backend/utils/audio.py:30 | the gap is never negative, is at least the pause, and is either 0 or the pause: a negative pause is clamped, not rejected |
| EpisodeAssembly.VoiceFor | backend/utils/audio.py:33-37 | the voice is one of the two given; with distinct voices it is the host voice exactly when the speaker is "host" in any case |
| EpisodeAssembly.SynthesizeEpisode | backend/utils/audio.py:28-47 | the calls made are a prefix of the reference call list (one per kept turn, in order); on success they are all of it, the file is "episode.mp3" and the timeline is the reference rendering; on failure the error is the one the last call returned and every call before it succeeded |
| EpisodeAssembly.RenderAllOk | backend/utils/audio.py:32-39 | a timeline is produced exactly when every synthesizer call succeeds |
| EpisodeAssembly.RenderFirstError | backend/utils/audio.py:32-39 | on failure some call failed with exactly that error and every call before it succeeded |
| EpisodeAssembly.RenderShape | backend/utils/audio.py:32-39 | the timeline `Render` builds is clip, gap, clip, gap, ...: entry 2i is the i-th call's clip with the duration the synthesizer returned, entry 2i+1 is the gap, 2n entries in all |
| EpisodeAssembly.RenderDuration | backend/utils/audio.py:29-39 | n calls give exactly n gaps, and the total duration is the speech duration plus n times the gap |
| EpisodeAssembly.RequestsSkipBlank | backend/utils/audio.py:34-36 | inserting a blank turn anywhere in a script changes none of the calls |
| EpisodeAssembly.RequestsFollowKeptTurns | backend/utils/audio.py:32-38 | in the call list `Requests` there is one call per kept turn, in script order, with that turn's text and voice |
| EpisodeAssembly.BlankScriptIsEmpty | backend/utils/audio.py:29-39 | a script of blank turns makes no call and yields an empty timeline |
| EpisodeAssembly.TwoTurnEpisode | backend/utils/audio.py:28-47 | a host turn and a guest turn with a 500 ms pause give clip, 500 ms, clip, 500 ms in the two voices |
| AudioFallback.Capped | app_streamlit.py:527-528 | the basic pass's progress is `min(90, p)`: passed through up to 90, exactly 90 above it |
| AudioFallback.BasicFormat | app_streamlit.py:532-539 | after the fallback the format is the MP3 one exactly when the file name ends in ".mp3" ignoring case, otherwise WAV |
| AudioFallback.GenerateAudio | app_streamlit.py:496-551 | the advanced strategy is called first; the basic one is called, with the same job, exactly when the advanced one raised and its import worked; an advanced success is kept with the MP3 defaults; a fallback success keeps the basic file and takes the format `BasicFormat` picks from its name; MIME and playback agree; failure exactly when both fail |
| AudioFallback.DoubleFailure | app_streamlit.py:540-541 | when both strategies fail, the single error message contains both error texts |
| AudioFallback.ProgressRules | app_streamlit.py:493-550 | the page's own ticks start at 0, the basic pass never reports above 90, and the page reports 100 exactly when the result is recorded, as the last step (the strategies' ticks are pinned by `ProgressTrace`) |
| AudioFallback.ProgressTrace | app_streamlit.py:493-550 | the trace is the page's 0, then every report of the advanced strategy as given, then on the fallback the page's 10 and every report of the basic strategy as `min(90, p)`, then 100 after a success, and no other tick |
| AudioFallback.AudioPanel | app_streamlit.py:461-488 | generation is offered exactly when a script exists, the audio libraries loaded and both voices are chosen, with their ids; missing libraries give the transcript offer with the import error |
| Transcript.Decimal | app_streamlit.py:247 | the decimal numeral is non-empty, all digits, without a leading zero, and has two or more digits exactly from 10 on |
| Transcript.DecimalRoundTrip | app_streamlit.py:247 | reading a numeral back gives the number |
| Transcript.Pad2 | app_streamlit.py:247 | the padded number has at least two digits, reads back as the number, has exactly two below 100 and equals the plain numeral from 10 on |
| Transcript.Rule | app_streamlit.py:235 | the rule line is 60 equals signs |
| Transcript.BodyLines | app_streamlit.py:243-249 | three lines per turn, block k being that turn's heading, text and blank line |
| Transcript.TranscriptLines | app_streamlit.py:234-253 | 10 + 3n lines: the 7 header lines, then each turn's 3 lines numbered from 1, then the 3 footer lines |
| Transcript.TurnLinesShape | app_streamlit.py:243-249 | the heading is "[" + two-digit number + "] " + upper-cased speaker + ":" ("UNKNOWN" when missing), the text line is indented by four spaces, then a blank line |
| Transcript.TranscriptSplits | app_streamlit.py:223-255 | `TranscriptText` is the lines joined by line breaks: when no field holds a line break, splitting the text at line breaks gives back exactly the lines |
| Transcript.TranscriptFileName | app_streamlit.py:477 | the name is "podcast_script_", then the title's first 50 characters with spaces as underscores, then ".txt"; it holds no space |
| Transcript.FileNameUsesFirstFifty | app_streamlit.py:797 | titles that agree on their first 50 characters get the same file name |
| Transcript.ScriptView | app_streamlit.py:447-457 | one line per turn with "---" between consecutive turns and none after the last: 2n-1 entries |
| Transcript.ViewAgreesWithVoice | app_streamlit.py:819-829 | a turn is shown with the host microphone exactly when the assembler speaks it in the host voice |
| Text.Strip | utils/scrape.py:178 | `str.strip()`: the result is the infix of the text after its leading whitespace, has no whitespace at either end, and is empty exactly when the text is blank (with `StripSplit`, only whitespace lies around it) |
| Text.StripSplit | utils/scrape.py:178 | the text is a run of whitespace, then its stripped form, then a run of whitespace: `strip()` removes exactly the leading and trailing whitespace |
| Text.Collapse | utils/scrape.py:140 | collapsing whitespace runs to one space gives single-spaced text, keeps emptiness, blankness and whether it starts with whitespace (its end is pinned by `CollapseEnd`, what lies between by `CollapseKeepsSplit`) |
| Text.CollapseEnd | utils/scrape.py:140 | a trailing whitespace run becomes one final space, and a text ending in a visible character still ends in that character |
| Text.SplitWsParts | backend/utils/scrape.py:10 | the reference `str.split()` (`SplitWs`, the maximal runs of non-whitespace characters) returns only non-empty parts without whitespace |
| Text.CollapseKeepsSplit | utils/scrape.py:140 | collapsing keeps the `split()` parts: every visible character stays, and each whitespace run between two parts stays one separator |
| Text.TidyIsJoin | backend/utils/scrape.py:10 | a trimmed, single-spaced text is its `split()` parts joined by single spaces |
| Text.SquishIsJoin | backend/utils/scrape.py:10 | collapse-then-strip equals `" ".join(s.split())`: each interior whitespace run becomes exactly one space between the parts |
| Text.Squish | backend/utils/scrape.py:10 | collapse-then-strip gives trimmed, single-spaced text that is empty exactly when the input is blank (its value is pinned by `SquishIsJoin`) |
| Text.SquishKeepsWords | backend/utils/scrape.py:10 | collapse-then-strip keeps every non-whitespace character, in order |
| Text.SquishIdempotent | backend/utils/scrape.py:10 | collapse-then-strip applied twice is applied once |
| Text.SplitJoin | app_streamlit.py:255 | splitting a joined list at the separator gives the list back when no part holds the separator |
| Regex.MatchAt | utils/scrape.py:144-171 | a match is non-empty and inside the text, and its replacement holds only text characters or the pattern's literal ones; a line-cutting pattern deletes up to the line end |
| Regex.SubChars | utils/scrape.py:156-171 | a substitution (`Sub`, the model of `re.sub`) only keeps text characters and the replacement's literal characters |
| Regex.CutAtFirstMatch | utils/scrape.py:156-157 | on one line, a pattern ending in `.*` keeps exactly the text before its first match |
| Regex.PipeFirstMatch | utils/scrape.py:206 | the pipe pattern first matches where the whitespace before the first pipe character begins |
| Regex.PipeGone | utils/scrape.py:206-212 | no pipe character is left after the pipe pattern, for any text |
| Regex.PhraseFirstMatch | utils/scrape.py:144-157 | a phrase pattern first matches at the phrase's first case-insensitive occurrence |
| ArticleCleaning.CheckUrl | utils/scrape.py:32-44 | missing libraries, a blank URL and an unparsable URL are each rejected with their message before any fetch; otherwise the stripped, non-empty URL is used |
| ArticleCleaning.PhraseCut | utils/scrape.py:156-157 | on one line a phrase pattern leaves a prefix without the phrase, cut where the phrase occurs, and leaves a phrase-free text alone |
| ArticleCleaning.CutPhrasesFacts | utils/scrape.py:143-157 | cutting a list of phrases in turn leaves a prefix holding none of them, cut where one of them occurs, and leaves a text without any of them alone |
| ArticleCleaning.BoilerplateCut | utils/scrape.py:143-157 | the same for the ten boilerplate phrases |
| ArticleCleaning.Scrub | utils/scrape.py:159-171 | the URL, e-mail, punctuation and spacing substitutions bring in no character but dots, dashes and spaces, so in particular no line break |
| ArticleCleaning.KeepLines | utils/scrape.py:174-183 | every kept line is stripped and substantial |
| ArticleCleaning.KeepLinesFilter | utils/scrape.py:174-183 | the kept lines are exactly the substantial stripped lines, in their order: entry k is the stripped line at an increasing position, and a position is used exactly when its stripped line is substantial |
| ArticleCleaning.CleanExtractedText | utils/scrape.py:126-188 | the empty text gives the empty text; any result has no whitespace at either end and only single spaces inside |
| ArticleCleaning.CleanTextVerdict | utils/scrape.py:140-188 | since whitespace is collapsed first, the text is one line: the result is its normalised stripped form when that is longer than 15, or longer than 5 with a sentence mark, and empty otherwise |
| ArticleCleaning.ShortTitle | utils/scrape.py:221-222 | a title over 100 characters becomes its first 97 and "...", 100 in all; shorter titles are unchanged |
| ArticleCleaning.CleanTitle | utils/scrape.py:190-224 | the cleaned title is never empty and at most 100 characters; a missing or empty title gives "Untitled Article" |
| ArticleCleaning.PlainTitleKept | utils/scrape.py:190-224 | a normalised title with no `-`, no pipe character and no two adjacent dots survives cleaning: it comes back unchanged up to 100 characters, and as its first 97 characters plus "..." beyond |
| ArticleCleaning.NoDotPairUnchanged | utils/scrape.py:218 | removing runs of two or more dots leaves a text without adjacent dots unchanged |
| ArticleCleaning.StripSuffixes | utils/scrape.py:204-212 | the four suffix patterns only delete characters, and no pipe character is left |
| ArticleCleaning.PipeCut | utils/scrape.py:206-212 | on one line holding a pipe character, the pipe pattern keeps the text before the first pipe character without its trailing whitespace |
| ArticleCleaning.PipeCutsTitle | utils/scrape.py:204-212 | on a one-line title, all four suffix patterns together remove at least the first pipe character, what follows it and the whitespace before it |
| ArticleCleaning.CleanTitleNoPipe | utils/scrape.py:204-224 | no cleaned title holds a pipe character |
| ArticleCleaning.DotRunsGone | utils/scrape.py:218 | after removing runs of two or more dots, no two dots are adjacent |
| ArticleCleaning.CleanTitleDots | utils/scrape.py:218-222 | a cleaned title has no two adjacent dots except in the "..." that marks a cut title |
| BackendScrape.StripText | backend/utils/scrape.py:9-11 | `None` and "" give ""; the result is `" ".join(s.split())`: the `split()` parts joined by single spaces, so trimmed, single-spaced, with the non-whitespace characters in order |
| BackendScrape.StripTextIdempotent | backend/utils/scrape.py:9-11 | `_strip` of a `_strip` result changes nothing |
| BackendScrape.SpaceRunGone | backend/utils/scrape.py:39 | after `\s{2,}` is replaced, no two whitespace characters are adjacent |
| BackendScrape.SpaceRunFixes | backend/utils/scrape.py:39 | a text without adjacent whitespace is left unchanged by that replacement |
| BackendScrape.SpaceRunKeepsWords | backend/utils/scrape.py:39 | that replacement keeps the non-whitespace characters in order |
| BackendScrape.NewlineRunHead | backend/utils/scrape.py:38 | the blank-line pattern rewrites a whitespace run to whitespace that is one character exactly when the run was |
| BackendScrape.NewlineRunSubsumed | backend/utils/scrape.py:38-39 | the blank-line substitution followed by the space substitution equals the space substitution alone |
| BackendScrape.PostClean | backend/utils/scrape.py:37-39 | the clean-up leaves no two whitespace characters next to each other and keeps the visible characters in order |
| BackendScrape.PostCleanFacts | backend/utils/scrape.py:37-39 | the two-step clean-up equals the `\s{2,}` substitution alone, so the blank-line step has no visible effect; the result has no adjacent whitespace and keeps the visible characters in order |
| BackendScrape.PostCleanOfTidy | backend/utils/scrape.py:35-39 | on text already normalised by `_strip` the clean-up changes nothing |
| BackendScrape.PageTitle | backend/utils/scrape.py:23-34 | on the trafilatura path there is always a title: exactly `_strip` of the `<title>` text when there is one, else the URL's host; otherwise readability's short title, which may be missing |
| BackendScrape.BackendArticle | backend/utils/scrape.py:21-41 | the title falls back to the URL when missing or empty; the text has no adjacent whitespace and keeps the visible characters of the extracted text; on the trafilatura path it is exactly `_strip` of it, and on the readability path exactly the two clean-up substitutions applied to readability's text |

## Left out

- Network access is a parameter or oracle: the text-to-speech POST, the article fetch and the OpenAI chat call. A synthesizer call is an oracle returning a duration or an error.
- EpisodeAssembly.SynthesizeEpisode: a synthesizer call's answer depends only on its text, voice and key. In the code each turn is a separate POST (backend/utils/audio.py:23-25) that can fail on its own, through `raise_for_status` or the 60 s timeout, so a repeated line in the same voice could fail the second time. The model gives a repeated call the same answer.
- pydub decoding, silence generation and MP3 export at 192k are left out. Audio is abstract segments with integer durations.
- The `time.sleep(0.2)` rate limit is left out: it does not affect the result.
- trafilatura, readability, BeautifulSoup and `urlparse` are left out as foreign libraries. Their results are inputs (`Extraction`, the `parses` predicate of `CheckUrl`).
- The text-length thresholds between the fetch and the cleaning in utils/scrape.py (lines 91 and 106) depend on library output and are left out.
- The advanced (`utils.audio_streamlit`) and basic (`utils.audio_basic`) synthesizers are not part of this model. Each is an opaque strategy that reports progress and then returns a file or raises.
- The Streamlit widgets are left out: status texts, spinner, CSS, session-state plumbing, the float megabyte display and the Flask routes.
- The prompt template in backend/utils/script_prompt.py is a fixed text and is left out.
- `datetime.now()` in the transcript is the `stamp` parameter.
- A speaker present in the JSON but `null` is not modelled: `.upper()` (app_streamlit.py:244) and `.lower()` in the script views raise on it, while the assembler's `or ""` (backend/utils/audio.py:33) accepts it. A `null` text is not modelled either: the transcript writes it as "    None" (app_streamlit.py:245,248), the views show "None", and the assembler treats it as "" (backend/utils/audio.py:34). A missing key is modelled as `None`.
- Case mapping and `re.IGNORECASE` are modelled for ASCII letters only. Python also maps other letters, such as the Kelvin sign or the long s, and these are not modelled. For the keywords compared here ("host", ".mp3", the boilerplate phrases and title suffixes) this only matters for those few non-ASCII characters. The transcript heading's `.upper()` (`Transcript.TurnLinesShape`) differs more: Python upper-cases every non-ASCII lower-case letter, as in "josé" or "ß" (which becomes "SS"), and the model leaves them unchanged.
- ArticleCleaning.BoilerplateCut: states that the text is cut where one of the phrases occurs, not at the earliest occurrence of any phrase. The phrases are cut one after another, so with overlapping phrases the code can keep text past an earlier occurrence. For example, "x Related articleShare this article" loses "Share this article" first and keeps "x Related article", although "Related articleS" matches "Related articles" ignoring case at position 2.
- ArticleCleaning.CleanTitle: the title is normalised before dot runs are removed, so a removed ".." can leave a leading, trailing or double space (".. Breaking" becomes " Breaking"). The model keeps this order and does not claim the cleaned title is trimmed.
- ArticleCleaning.CleanTextVerdict: the line filter is stated only for the one-line text that collapsing produces; since collapsing always runs first, no other case arises.
