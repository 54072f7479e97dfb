# astra_convertator: the conversion core in Dafny

A model of the conversion core of the `astra_convertator` desktop converter. The modelled
parts are these:

- **Argument list.** `ConverterThread.run` builds the argument list for the `ffmpeg`
  transcoder from the output format, the CRF and the audio bitrate.
- **Diagnostic loop.** It reads the transcoder's diagnostic lines, finds the
  `time=HH:MM:SS.ff` marker in each, turns the marker into a percentage of the probed
  duration, and ends with a terminal event.
- **Stop.** `stop` clears the thread's cooperative flag.
- **Starting a job.** `MediaConverter.start_conversion` checks the input, the format and the
  save dialog's answer in that order, proposes the default output name, picks the CRF and
  bitrate by format family, and replaces the previous thread.
- **Themes.** `SettingsManager` keeps the current colour theme.

Modules:

- `Wrappers`: `Option` and `Result`.
- `Decimal`: Python's `str(int)` for the CRF, and the decimal reading that inverts it.
- `Command`: the argument list. `Argv` is the specification. `BuildArgv`, `VideoArgs` and
  `AudioArgs` build the list step by step, as the thread's `extend` and `append` calls do.
  Options are kept as structured `Opt` values, and `Effective` gives the value the transcoder
  uses for a flag: the last occurrence wins.
- `CommandFacts`: where each option sits in the list, and which settings each format family
  ends up with.
- `TimeMarker`: the regular expression `time=(\d+):(\d+):(\d+).(\d+)`.
  - `MatchAt` is the declarative meaning of one match.
  - `MatchHere` and `Search` compute what a backtracking engine reports. That is the leftmost
    match, and at that position the greedy choice of seconds and fraction. The unescaped `.`
    is any character but a newline.
- `Percentage`: `min(int(elapsed / duration * 100), 100)`.
- `Job`: the `ConverterThread` class.
  - `Run` sets the duration, builds the command, runs the reading loop `Follow`, and appends
    the terminal events.
  - `Stop` clears the flag.
  - `LoopEvents` and `Supervise` specify what a run emits.
- `Request`: `validate_input`, the default output name, the parameter choice, `Resolve` (the
  decision `start_conversion` makes), and the `MediaConverter` class.
- `Settings`: the theme names and the `SettingsManager` class.

The outside world enters as parameters:

- the probed duration (`probed`);
- the transcoder's diagnostic lines (`stderr`; an empty line is the end of the stream, as
  `readline` reports it);
- how supervision ends (`Outcome`: an exit code, or an exception raised at a given read);
- when the presentation thread's `stop` lands (`stopAfter`: after that many lines);
- `os.path.exists` (`fileExists`);
- the save dialog (`saveDialog`, which maps the proposed name to the chosen path, `""` when
  cancelled);
- whether the previous thread is still executing (`active`).

Where the program's documented intent and its code differ, the model follows the code:

- A run whose transcoder exits with code 0 emits `Progress(100)` and `Finished(0)`, even after
  `stop`. The code does not check the flag after the loop (`convertator.py:188-193`).
- The percentages follow the markers as they come. Nothing forces them to rise.
  `Job.ProgressNondecreasing` and `Job.SuperviseNondecreasing` prove they never go down when
  the markers' times never go down.
- A video format always gets the bitrate `"128k"` (`convertator.py:273`). So the video branch's
  `self.audio_bitrate if self.audio_bitrate else "128k"` never sees the combo's value.

## Model

| member | source | states |
|---|---|---|
| Command.Options | astra_convertator/convertator.py:128-160 | the options of each format family, in the order the branches append them; a format in neither list gets none |
| Command.Argv | astra_convertator/convertator.py:126-162 | the whole argument list: `ffmpeg -y -i input`, the rendered options, the output path |
| Command.BuildArgv | astra_convertator/convertator.py:126-162 | the argument list built step by step is exactly `Argv`: `ffmpeg -y -i input`, the format family's options, the output path last |
| Command.VideoArgs | astra_convertator/convertator.py:128-145 | the video branch's appended words are the rendering of the video options: libx264, the CRF when truthy, the gif or webm override, aac and the bitrate or 128k |
| Command.AudioArgs | astra_convertator/convertator.py:147-160 | the audio branch's appended words are the rendering of the audio options: `-vn`, the format's codec (none for wav, quality 2 for mp3), the bitrate when truthy |
| Command.AudioCodecArgs | astra_convertator/convertator.py:150-157 | the codec words of each audio format are the rendering of its codec options: libmp3lame with quality 2, flac, libvorbis, aac, nothing for wav |
| Command.AudioIsNotVideo | astra_convertator/convertator.py:128-147 | the two format lists are disjoint, so the audio branch is reached for every audio format |
| CommandFacts.AudioCodecKnown | astra_convertator/convertator.py:147-157 | every audio format except wav names a codec |
| CommandFacts.ArgvFrame | astra_convertator/convertator.py:126-162 | for every format the list starts `ffmpeg -y -i input` and ends with the output path; a format in neither list gets nothing in between |
| CommandFacts.VideoArgvLayout | astra_convertator/convertator.py:128-145 | positions in a video list: libx264 after the input, the CRF text next when set, the gif filter or webm codec next, `-c:a aac -b:a <bitrate or 128k>` just before the output; 11 words when nothing optional is present |
| CommandFacts.VideoSettings | astra_convertator/convertator.py:128-145 | the transcoder's effective settings for a video format: the codec is gif, libvpx-vp9 or libx264 (last `-c:v` wins); the CRF appears exactly when it is truthy; the gif filter only for gif; aac at the given bitrate or 128k; video is never disabled |
| CommandFacts.VideoCrfReadsBack | astra_convertator/convertator.py:131-132 | the CRF text in a video list reads back as the requested CRF |
| CommandFacts.AudioArgvLayout | astra_convertator/convertator.py:147-160 | positions in an audio list: `-vn` after the input, then the codec pair, then `-q:a 2` for mp3, then the bitrate pair just before the output when truthy; the exact length |
| CommandFacts.AudioSettings | astra_convertator/convertator.py:147-160 | the effective settings for an audio format: video disabled; no video codec, filter or CRF whatever the CRF; the format's audio codec; quality 2 only for mp3; the bitrate exactly when truthy |
| Decimal.NatToString | astra_convertator/convertator.py:132 | the decimal text of a natural number is non-empty, all digits, and has no leading zero |
| Decimal.IntToString | astra_convertator/convertator.py:132 | `str` of an int is non-empty, all digits for non-negative values, and starts with `-` exactly for negative values |
| Decimal.ValueOfNatToString | astra_convertator/convertator.py:132 | the digits of `str(n)` denote `n` |
| Decimal.ParseIntToString | astra_convertator/convertator.py:132 | every CRF's text reads back as that CRF |
| Decimal.IntToStringInjective | astra_convertator/convertator.py:132 | distinct CRFs give distinct texts |
| TimeMarker.SecondsGroupsGreedy | astra_convertator/convertator.py:172 | every way of splitting the seconds and fraction digits is one the engine could take, and it takes the longest seconds group, then the longest fraction |
| TimeMarker.MatchHere | astra_convertator/convertator.py:172 | the engine at one position: the key, the hours and minutes runs forced by their colons, then the backtracking split of seconds and fraction |
| TimeMarker.Search | astra_convertator/convertator.py:179 | the scan from left to right that `pattern.search` performs |
| TimeMarker.Marker | astra_convertator/convertator.py:179-181 | the hours, minutes and seconds groups of the reported match, read as decimal numbers |
| TimeMarker.MatchHereSound | astra_convertator/convertator.py:172 | what the engine reports at a position is a match of the pattern there |
| TimeMarker.MatchHereComplete | astra_convertator/convertator.py:172 | every match at a position is found there, and the reported one is preferred to it under greedy backtracking |
| TimeMarker.SearchIsFirst | astra_convertator/convertator.py:179 | the scan reports the first position where the engine matches, and reports nothing only when no position matches |
| TimeMarker.SearchIsLeftmostGreedy | astra_convertator/convertator.py:172-179 | `pattern.search` reports a match with no match starting earlier and none preferred at the same position; it reports nothing exactly when the pattern matches nowhere |
| TimeMarker.MarkerFound | astra_convertator/convertator.py:179-180 | a line has a marker exactly when the pattern matches somewhere in it |
| TimeMarker.MarkerReadsBack | astra_convertator/convertator.py:172-182 | a line holding `time=H:M:S.F` (digit groups) after text without the letter `t` reads back as the values of H, M and S, whatever follows; the fraction is discarded |
| Percentage.Percent | astra_convertator/convertator.py:183-184 | the percentage lies in 0..100 and is 100 exactly when the elapsed time reaches the duration |
| Percentage.PercentTruncates | astra_convertator/convertator.py:183 | below 100 the percentage is `elapsed / duration * 100` truncated to a whole number |
| Percentage.PercentMonotone | astra_convertator/convertator.py:182-184 | a later marker never yields a smaller percentage |
| Job.LineEvents | astra_convertator/convertator.py:179-184 | what one line emits: the marker's percentage of the duration when there is a marker and the duration is positive, nothing otherwise |
| Job.LoopEvents | astra_convertator/convertator.py:174-186 | the events of the processed lines, in order |
| Job.LineEventsIsProgress | astra_convertator/convertator.py:179-184 | one line emits at most one event, a progress percentage in 0..100 |
| Job.LineEventsIff | astra_convertator/convertator.py:179-180 | a line emits an event exactly when the pattern matches in it and the duration is positive |
| Job.HalfwayLine | astra_convertator/convertator.py:179-184 | a line with the marker `time=00:00:06.00` after text without the letter `t` (such as `frame=  150 fps= 25 size=  512kB `) reports 50% of a twelve-second input |
| Job.LoopEventsLength | astra_convertator/convertator.py:174-186 | the loop emits at most one event per processed line |
| Job.LoopEventsAreProgress | astra_convertator/convertator.py:174-186 | the loop emits only progress events, each in 0..100 |
| Job.NoDurationNoProgress | astra_convertator/convertator.py:180 | without a positive duration the loop emits nothing |
| Job.EventsBelow | astra_convertator/convertator.py:180-184 | when no marker exceeds a bound, no progress exceeds that bound's percentage |
| Job.ProgressNondecreasing | astra_convertator/convertator.py:174-186 | when the markers' times never go down, neither do the emitted percentages |
| Job.EndOfStream | astra_convertator/convertator.py:175-177 | the loop's end-of-stream index is the first empty read |
| Job.ExitIndex | astra_convertator/convertator.py:174-177 | the loop processes no lines beyond the end of the stream |
| Job.Ending | astra_convertator/convertator.py:188-203 | the last two events: 100% and code 0 on a zero exit, the FFmpeg error with the unread diagnostics and code 1 on another exit, the exception's message and code 1 when something raised |
| Job.Supervise | astra_convertator/convertator.py:174-203 | a run's events: those of the lines the loop processed, then the ending |
| Job.SuperviseEnds | astra_convertator/convertator.py:188-203 | every run emits exactly one finished event, as its last event: code 0 exactly on a zero exit code, 1 on a non-zero exit or an exception; everything before the last two events is progress in 0..100 |
| Job.SuperviseReports | astra_convertator/convertator.py:188-203 | the event before the finished one is `Progress(100)` on a zero exit, the FFmpeg error with the remaining diagnostics on a non-zero exit, and the exception's message when something raised |
| Job.SuperviseWithoutDuration | astra_convertator/convertator.py:180 | without a positive duration a run emits only its last two events |
| Job.SuperviseNondecreasing | astra_convertator/convertator.py:174-193 | when the markers' times never go down, the percentages of a whole run never go down, the closing 100% included |
| Job.StopBoundsRun | astra_convertator/convertator.py:174-206 | once `stop` lands after k lines, no further line is processed and at most k + 2 events are emitted; a thread whose flag is already clear emits only the terminal events |
| Job.ConverterThread.constructor | astra_convertator/convertator.py:99-108 | a new thread holds its request, runs, has duration 0 and has emitted nothing |
| Job.ConverterThread.Stop | astra_convertator/convertator.py:205-206 | the flag is cleared and nothing else changes |
| Job.ConverterThread.Report | astra_convertator/convertator.py:179-184 | one pass of the loop body appends exactly that line's event |
| Job.ConverterThread.Follow | astra_convertator/convertator.py:174-186 | the loop processes exactly the lines `ExitIndex` counts, appends their events in order, and leaves the flag as `stop` left it |
| Job.ConverterThread.Run | astra_convertator/convertator.py:121-203 | a run records the duration and the command `Argv`, appends the events `Supervise` specifies, and leaves the flag as the loop found it |
| Request.LastIndexOf | astra_convertator/convertator.py:227 | a reported index holds the character |
| Request.LastIndexOfIsLast | astra_convertator/convertator.py:227 | the character does not occur after the reported index, and does not occur at all when nothing is reported |
| Request.Basename | astra_convertator/convertator.py:227 | `os.path.basename` on POSIX: the text after the last slash |
| Request.BasenameIsLastComponent | astra_convertator/convertator.py:227 | `basename` is the suffix of the path after its last slash and contains no slash |
| Request.SplitExt | astra_convertator/convertator.py:227 | `os.path.splitext` on POSIX: the extension starts at the last dot unless only dots precede it |
| Request.SplitExtSpec | astra_convertator/convertator.py:227 | root and extension rejoin to the name; a non-empty extension is a dot followed by no dot, after a root that is not only dots; an empty one means every dot has only dots before it |
| Request.DefaultOutputName | astra_convertator/convertator.py:227 | the proposed name: the input's basename without its extension, then `.` and the format |
| Request.DefaultOutputNameParts | astra_convertator/convertator.py:227 | the proposed name ends in `.format`, has no directory part, and its stem is the input's basename without its extension |
| Request.DefaultOutputNameExamples | astra_convertator/convertator.py:227 | `d/x.y` becomes `x.mp4`, and `d/.x` keeps its leading dot: `.x.mp3` |
| Request.ValidateInput | astra_convertator/convertator.py:217-224 | the input passes exactly when a path is given and exists; otherwise the rejection is the missing path or the missing file |
| Request.Message | astra_convertator/convertator.py:217-261 | every rejection shows a message box except a cancelled save dialog, which returns silently |
| Request.ChosenCrf | astra_convertator/convertator.py:272 | the CRF passed to the thread: the combo's value for a video format, none otherwise |
| Request.ChosenBitrate | astra_convertator/convertator.py:273 | the bitrate passed to the thread: the combo's value for an audio format, `"128k"` otherwise |
| Request.Resolve | astra_convertator/convertator.py:250-273 | the decision `start_conversion` makes: the first failed check, or the job with the chosen path and parameters |
| Request.ResolveOrder | astra_convertator/convertator.py:250-261 | the checks run in order and the first failure decides; each rejection happens exactly when the earlier checks pass and its own fails; a job is created exactly when all pass |
| Request.ResolvedJob | astra_convertator/convertator.py:259-271 | a created job converts the given input to the chosen format and writes where the dialog answered when offered the default name |
| Request.VideoJobSettings | astra_convertator/convertator.py:272-273 | a video job uses the combo's CRF when truthy and always the 128k audio bitrate |
| Request.AudioJobSettings | astra_convertator/convertator.py:272-273 | an audio job never passes a CRF, and passes the combo's bitrate exactly when it is truthy |
| Request.ResolvedSettings | astra_convertator/convertator.py:268-275 | the transcoder's CRF and bitrate for any created job, by format family |
| Request.MediaConverter.constructor | astra_convertator/convertator.py:213-215 | a new controller holds no thread |
| Request.MediaConverter.StartConversion | astra_convertator/convertator.py:250-275 | a rejection changes nothing; otherwise a still-active previous thread is stopped and nothing else of it changes, and a fresh running thread with duration 0 and no events holds the resolved job |
| Settings.Select | astra_convertator/convertator.py:26-29 | the theme becomes the requested name exactly when the name is known, and stays otherwise |
| Settings.SelectIdempotent | astra_convertator/convertator.py:26-29 | applying the same theme twice is the same as applying it once |
| Settings.SelectKeepsKnown | astra_convertator/convertator.py:18-29 | the current theme stays one of the four known themes |
| Settings.LastKnownWins | astra_convertator/convertator.py:26-29 | after a series of requests the last known name is the theme; with no known name the theme is unchanged |
| Settings.SettingsManager.constructor | astra_convertator/convertator.py:17-24 | a new manager's theme is "Светлая", a known theme |
| Settings.SettingsManager.ApplyTheme | astra_convertator/convertator.py:26-29 | a known name is applied and recorded, an unknown one changes nothing, and the theme stays known |

## Left out

- The theme palettes (`convertator.py:31-91`): the colours are not modelled. `ApplyTheme` returns the name of the theme it applies instead of restyling an application.
- Duration probing with `ffprobe` (`convertator.py:110-119`): the probed duration is the parameter `probed`. A failed probe is a `probed` of 0.
- Starting the transcoder process, `wait`, `terminate`, `quit` and the two-second `wait` of `stop` (`convertator.py:164-170`, `188`, `207-210`). The process enters as its diagnostic lines and an `Outcome`.
- Job.ConverterThread.Stop: models only the cooperative flag. Terminating the process and joining the thread are outside the model.
- Logging: every `logging` call, and the log file.
- Qt signals and threads:
  - emitted signals are appended to the thread's `events`;
  - cross-thread delivery and the concurrency of `stop` are not modelled: `stopAfter` places the stop between two reads;
  - `isRunning()` is the parameter `active`.
- An exception raised by process creation, before the first read, is modelled as an exception at the read of line 0. Its events are the same.
- Percentage.Percent: computes over exact reals, where the code uses floats. Two consequences:
  - 29 s of 100 s: the code computes `29.0 / 100.0 * 100 = 28.999999999999996` and emits 28, where `Percent` gives 29.
  - A quotient that overflows to infinity (a tiny probed duration): `int()` raises `OverflowError`, so the run emits the exception's error and `Finished(1)`, where `Percent` gives 100.
  - Rounding of huge hours, minutes and seconds values is not modelled either.
- `\d` matches ASCII digits only. Python's `re` also accepts other Unicode decimal digits.
- `stderr.read()` after a non-zero exit is the concatenation of the unread lines up to the end of the stream.
- Reading the window: `get_output_format`, `get_crf_value` and `get_audio_bitrate` (`convertator.py:235-248`). Their results are the parameters `format`, `crfData` and `bitrateData`.
- `prepare_conversion`, the signal wiring in `start_conversion`, and the thread's `start` (`convertator.py:263`, `277-280`, `286-290`).
- The save dialog's caption and file filter (`convertator.py:228-233`): the dialog is the function `saveDialog` from the proposed name to the chosen path.
- `os.path.basename` and `os.path.splitext` use POSIX separators only.
