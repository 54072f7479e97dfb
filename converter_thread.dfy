/**
 * `ConverterThread`: one conversion job. `Run` builds the transcoder's argument list, reads the
 * transcoder's diagnostic lines until end of stream or until the cooperative flag is cleared,
 * emits a progress event for each line that carries a time marker, and ends with the terminal
 * events. `Stop` clears the flag.
 *
 * The transcoder process is an input: its diagnostic lines (an empty line is the end of the
 * stream, as `readline` reports it), the duration the probe returned, and how supervision ends.
 * `stopAfter` places the presentation thread's call to `stop` in the run: it lands once that
 * many lines have been processed.
 */
module Job {
  import opened Wrappers
  import Command
  import TimeMarker
  import Percentage
  import Decimal

  /** The thread's signals: `progress_signal`, `error_signal` and `finished_signal`. */
  datatype Event = Progress(percent: int) | Error(message: string) | Finished(code: int)

  /** How supervision of the transcoder ends: `wait` returns an exit code, or an exception is
      raised at the read of line `at` (at `wait`, if the loop ended before that read). */
  datatype Outcome = Exited(code: int) | Raised(at: nat, message: string)

  const FfmpegErrorPrefix := "Ошибка FFmpeg: "
  const ErrorPrefix := "Ошибка: "

  /** What one diagnostic line emits: a progress event when it carries a marker and the probed
      duration is positive, nothing otherwise. */
  function LineEvents(line: string, duration: real): seq<Event> {
    var marker := TimeMarker.Marker(line);
    if marker.Some? && duration > 0.0 then
      [Progress(Percentage.Percent(TimeMarker.Elapsed(marker.value), duration))]
    else []
  }

  /** The events the loop emits for the lines it processed, in order. */
  function LoopEvents(lines: seq<string>, duration: real): seq<Event> {
    if lines == [] then []
    else LoopEvents(lines[..|lines| - 1], duration) + LineEvents(lines[|lines| - 1], duration)
  }

  /** A line emits at most one event, a percentage between 0 and 100. */
  lemma LineEventsIsProgress(line: string, duration: real)
    ensures var r := LineEvents(line, duration);
      |r| <= 1 && (r != [] ==> r[0].Progress? && 0 <= r[0].percent <= 100)
  {
  }

  /** A line emits an event exactly when it carries a marker, the pattern matches somewhere in
      it, and the duration is positive. */
  lemma LineEventsIff(line: string, duration: real)
    ensures LineEvents(line, duration) != [] <==> duration > 0.0 && exists j: nat, sp :: TimeMarker.MatchAt(line, j, sp)
  {
    TimeMarker.MarkerFound(line);
  }

  /** At most one event per processed line. */
  lemma {:induction false} LoopEventsLength(lines: seq<string>, duration: real)
    ensures |LoopEvents(lines, duration)| <= |lines|
  {
    if lines != [] {
      LoopEventsLength(lines[..|lines| - 1], duration);
      LineEventsIsProgress(lines[|lines| - 1], duration);
    }
  }

  /** A line with the marker `time=00:00:06.00` after a prefix without the letter `t` (as
      `frame=  150 fps= 25 q=28.0 size=  512kB `) reports 50% of a twelve-second input. */
  lemma HalfwayLine(prefix: string, rest: string)
    requires 't' !in prefix
    ensures LineEvents(prefix + TimeMarker.MarkerLine("00", "00", "06", "00", rest), 12.0) == [Progress(50)]
  {
    var line := prefix + TimeMarker.MarkerLine("00", "00", "06", "00", rest);
    assert Decimal.AllDigits("00") && Decimal.AllDigits("06");
    TimeMarker.MarkerReadsBack(prefix, "00", "00", "06", "00", rest);
    assert Decimal.Value("00") == 0 by { assert "00"[..1] == "0"; }
    assert Decimal.Value("06") == 6 by { assert "06"[..1] == "0"; }
    LineEventsOf(line, 12.0, TimeMarker.Time(0, 0, 6));
    assert TimeMarker.Elapsed(TimeMarker.Time(0, 0, 6)) == 6;
    assert Percentage.Percent(6, 12.0) == 50 by {
      assert Percentage.Ratio(6, 12.0) == 50.0;
    }
  }

  /** The event of a line whose marker is `t`, when the duration is positive. */
  lemma LineEventsOf(line: string, duration: real, t: TimeMarker.Time)
    requires TimeMarker.Marker(line) == Some(t) && duration > 0.0
    ensures LineEvents(line, duration) == [Progress(Percentage.Percent(TimeMarker.Elapsed(t), duration))]
  {
  }

  /** Only progress events, each a percentage between 0 and 100. */
  predicate AllProgress(es: seq<Event>) {
    forall k :: 0 <= k < |es| ==> es[k].Progress? && 0 <= es[k].percent <= 100
  }

  lemma AllProgressAppend(a: seq<Event>, b: seq<Event>)
    requires AllProgress(a) && AllProgress(b)
    ensures AllProgress(a + b)
  {
    forall k | 0 <= k < |a + b|
      ensures (a + b)[k].Progress? && 0 <= (a + b)[k].percent <= 100
    {
      if k >= |a| {
        assert (a + b)[k] == b[k - |a|];
      }
    }
  }

  /** The loop emits only progress events, each a percentage between 0 and 100. */
  lemma {:induction false} LoopEventsAreProgress(lines: seq<string>, duration: real)
    ensures AllProgress(LoopEvents(lines, duration))
  {
    if lines != [] {
      var init, last := LoopEvents(lines[..|lines| - 1], duration), LineEvents(lines[|lines| - 1], duration);
      assert LoopEvents(lines, duration) == init + last;
      LoopEventsAreProgress(lines[..|lines| - 1], duration);
      LineEventsIsProgress(lines[|lines| - 1], duration);
      AllProgressAppend(init, last);
    }
  }

  /** Index of the first empty read: the first empty line, or the end of the sequence. */
  function EndOfStream(lines: seq<string>): (k: nat)
    ensures k <= |lines| && (k < |lines| ==> lines[k] == "")
  {
    if lines == [] || lines[0] == "" then 0 else 1 + EndOfStream(lines[1..])
  }

  /** Every line before the end of the stream is non-empty. */
  lemma {:induction false} BeforeEndOfStream(lines: seq<string>, j: nat)
    requires j < EndOfStream(lines)
    ensures lines[j] != ""
  {
    if j > 0 {
      BeforeEndOfStream(lines[1..], j - 1);
    }
  }

  /** `stderr.read()`: the text of the lines not yet read, up to the end of the stream. */
  function Concat(lines: seq<string>): string {
    if lines == [] then "" else Concat(lines[..|lines| - 1]) + lines[|lines| - 1]
  }

  /** What `readline` returns for line `i`: the line, or the empty string past the end. */
  function ReadLine(lines: seq<string>, i: nat): string {
    if i < |lines| then lines[i] else ""
  }

  /** The value of `_is_running` when the loop tests it before reading line `i`. */
  predicate StillRunning(running: bool, stopAfter: Option<nat>, i: nat) {
    running && (stopAfter.None? || i < stopAfter.value)
  }

  /** Number of lines the loop processes, from line `i` on: it stops when the flag is clear,
      when a read raises, or at the empty read. */
  function ExitIndex(lines: seq<string>, running: bool, stopAfter: Option<nat>, outcome: Outcome, i: nat): (n: nat)
    requires i <= EndOfStream(lines)
    ensures i <= n <= EndOfStream(lines)
    decreases EndOfStream(lines) - i
  {
    if !StillRunning(running, stopAfter, i) || (outcome.Raised? && outcome.at == i) || i == EndOfStream(lines) then i
    else ExitIndex(lines, running, stopAfter, outcome, i + 1)
  }

  /** Processing one more line appends that line's events. */
  lemma LoopEventsStep(lines: seq<string>, i: nat, duration: real)
    requires i < |lines|
    ensures LoopEvents(lines[..i + 1], duration) == LoopEvents(lines[..i], duration) + LineEvents(lines[i], duration)
  {
    assert lines[..i + 1][..i] == lines[..i];
  }

  lemma AppendAssoc<T>(a: seq<T>, b: seq<T>, c: seq<T>)
    ensures a + b + c == a + (b + c)
  {
  }

  /** One pass of the reading loop over a non-empty line `i`: the events grow by that line's
      events, the loop still ends where it would have, and the flag stays set unless `stop` lands
      after this line. */
  lemma Advance(lines: seq<string>, duration: real, running: bool, stopAfter: Option<nat>, outcome: Outcome,
                i: nat, line: string, base: seq<Event>, before: seq<Event>, after: seq<Event>)
    requires i <= EndOfStream(lines) && line == ReadLine(lines, i) && line != ""
    requires StillRunning(running, stopAfter, i) && !(outcome.Raised? && outcome.at == i)
    requires before == base + LoopEvents(lines[..i], duration)
    requires after == before + LineEvents(line, duration)
    ensures i + 1 <= EndOfStream(lines)
    ensures after == base + LoopEvents(lines[..i + 1], duration)
    ensures ExitIndex(lines, running, stopAfter, outcome, i + 1) == ExitIndex(lines, running, stopAfter, outcome, i)
    ensures StillRunning(running, stopAfter, i + 1) <==> !(stopAfter.Some? && stopAfter.value == i + 1)
  {
    LoopEventsStep(lines, i, duration);
    AppendAssoc(base, LoopEvents(lines[..i], duration), LineEvents(lines[i], duration));
    ExitIndexStep(lines, running, stopAfter, outcome, i);
  }

  /** The loop ends at line `i` when the flag is clear, the read raises, or the read is empty. */
  lemma ExitHere(lines: seq<string>, running: bool, stopAfter: Option<nat>, outcome: Outcome, i: nat)
    requires i <= EndOfStream(lines)
    requires !StillRunning(running, stopAfter, i) || (outcome.Raised? && outcome.at == i) || ReadLine(lines, i) == ""
    ensures ExitIndex(lines, running, stopAfter, outcome, i) == i
  {
    if i < EndOfStream(lines) {
      BeforeEndOfStream(lines, i);
    }
  }

  /** The loop goes past line `i` when it is running, the read succeeds and the line is not empty. */
  lemma ExitIndexStep(lines: seq<string>, running: bool, stopAfter: Option<nat>, outcome: Outcome, i: nat)
    requires i < EndOfStream(lines) && StillRunning(running, stopAfter, i) && !(outcome.Raised? && outcome.at == i)
    ensures ExitIndex(lines, running, stopAfter, outcome, i) == ExitIndex(lines, running, stopAfter, outcome, i + 1)
  {
  }

  /** The events of a run whose loop processed `n` lines. */
  lemma SuperviseAt(lines: seq<string>, duration: real, running: bool, stopAfter: Option<nat>, outcome: Outcome, n: nat)
    requires ExitIndex(lines, running, stopAfter, outcome, 0) == n
    ensures Supervise(lines, duration, running, stopAfter, outcome) == LoopEvents(lines[..n], duration) + Ending(lines, n, outcome)
  {
  }

  /** The last two events, after `n` lines were processed. The exit code itself is not passed on. */
  function Ending(lines: seq<string>, n: nat, outcome: Outcome): seq<Event>
    requires n <= EndOfStream(lines)
  {
    match outcome
    case Raised(_, message) => [Error(ErrorPrefix + message), Finished(1)]
    case Exited(code) =>
      if code == 0 then [Progress(100), Finished(0)]
      else [Error(FfmpegErrorPrefix + Concat(lines[n..EndOfStream(lines)])), Finished(1)]
  }

  /** Every event one run emits. */
  function Supervise(lines: seq<string>, duration: real, running: bool, stopAfter: Option<nat>, outcome: Outcome): seq<Event> {
    var n := ExitIndex(lines, running, stopAfter, outcome, 0);
    LoopEvents(lines[..n], duration) + Ending(lines, n, outcome)
  }

  /** A run ends with exactly one finished event, code 0 on a zero exit and 1 otherwise; every
      event before the last two is a progress event between 0 and 100. */
  lemma SuperviseEnds(lines: seq<string>, duration: real, running: bool, stopAfter: Option<nat>, outcome: Outcome)
    ensures var e := Supervise(lines, duration, running, stopAfter, outcome);
      |e| >= 2 && AllProgress(e[..|e| - 2]) &&
      (forall k :: 0 <= k < |e| - 1 ==> !e[k].Finished?) &&
      e[|e| - 1] == Finished(if outcome == Exited(0) then 0 else 1)
  {
    var n := ExitIndex(lines, running, stopAfter, outcome, 0);
    var loop, end := LoopEvents(lines[..n], duration), Ending(lines, n, outcome);
    assert Supervise(lines, duration, running, stopAfter, outcome) == loop + end;
    LoopEventsAreProgress(lines[..n], duration);
    Closing(loop, end);
  }

  /** The event before the finished one: 100% on a zero exit, the transcoder's remaining
      diagnostics on any other exit code, the exception's message when something raised. */
  lemma SuperviseReports(lines: seq<string>, duration: real, running: bool, stopAfter: Option<nat>, outcome: Outcome)
    ensures var e := Supervise(lines, duration, running, stopAfter, outcome);
      var n := ExitIndex(lines, running, stopAfter, outcome, 0);
      |e| >= 2 &&
      (outcome == Exited(0) ==> e[|e| - 2] == Progress(100)) &&
      (outcome.Exited? && outcome.code != 0 ==>
        e[|e| - 2] == Error(FfmpegErrorPrefix + Concat(lines[n..EndOfStream(lines)]))) &&
      (outcome.Raised? ==> e[|e| - 2] == Error(ErrorPrefix + outcome.message))
  {
    var n := ExitIndex(lines, running, stopAfter, outcome, 0);
    var loop, end := LoopEvents(lines[..n], duration), Ending(lines, n, outcome);
    assert Supervise(lines, duration, running, stopAfter, outcome) == loop + end;
    LastTwo(loop, end);
  }

  lemma LastTwo(loop: seq<Event>, end: seq<Event>)
    requires |end| == 2
    ensures var e := loop + end; |e| >= 2 && e[|e| - 2] == end[0] && e[|e| - 1] == end[1]
  {
  }

  /** Progress events followed by a non-final event and a last one. */
  lemma Closing(loop: seq<Event>, end: seq<Event>)
    requires AllProgress(loop) && |end| == 2 && !end[0].Finished?
    ensures var e := loop + end;
      |e| >= 2 && e[..|e| - 2] == loop && e[|e| - 1] == end[1] &&
      forall k :: 0 <= k < |e| - 1 ==> !e[k].Finished?
  {
    var e := loop + end;
    assert e[..|e| - 2] == loop;
    forall k | 0 <= k < |e| - 1
      ensures !e[k].Finished?
    {
      if k < |loop| {
        assert e[k] == loop[k];
      }
    }
  }

  /** Without a positive duration no marker is reported: the loop emits nothing. */
  lemma {:induction false} NoDurationNoProgress(lines: seq<string>, duration: real)
    requires duration <= 0.0
    ensures LoopEvents(lines, duration) == []
  {
    if lines != [] {
      NoDurationNoProgress(lines[..|lines| - 1], duration);
    }
  }

  /** Without a positive duration a run emits only its last two events. */
  lemma SuperviseWithoutDuration(lines: seq<string>, duration: real, running: bool, stopAfter: Option<nat>, outcome: Outcome)
    requires duration <= 0.0
    ensures Supervise(lines, duration, running, stopAfter, outcome) ==
      Ending(lines, ExitIndex(lines, running, stopAfter, outcome, 0), outcome)
  {
    var n := ExitIndex(lines, running, stopAfter, outcome, 0);
    NoDurationNoProgress(lines[..n], duration);
  }

  /** `stop` bounds the work: once it lands after `k` lines no further line is processed, and a
      thread whose flag is already clear emits only its last two events. */
  lemma StopBoundsRun(lines: seq<string>, duration: real, running: bool, stopAfter: Option<nat>, outcome: Outcome)
    ensures var n := ExitIndex(lines, running, stopAfter, outcome, 0);
      (stopAfter.Some? ==> n <= stopAfter.value) &&
      (stopAfter.Some? ==> |Supervise(lines, duration, running, stopAfter, outcome)| <= stopAfter.value + 2) &&
      (!running ==> n == 0 && Supervise(lines, duration, running, stopAfter, outcome) == Ending(lines, 0, outcome))
  {
    var n := ExitIndex(lines, running, stopAfter, outcome, 0);
    if stopAfter.Some? {
      ExitBeforeStop(lines, running, stopAfter, outcome, 0);
      LoopEventsLength(lines[..n], duration);
    }
    if !running {
      assert LoopEvents(lines[..0], duration) == [];
    }
  }

  lemma {:induction false} ExitBeforeStop(lines: seq<string>, running: bool, stopAfter: Option<nat>, outcome: Outcome, i: nat)
    requires stopAfter.Some? && i <= EndOfStream(lines) && i <= stopAfter.value
    ensures ExitIndex(lines, running, stopAfter, outcome, i) <= stopAfter.value
    decreases EndOfStream(lines) - i
  {
    if StillRunning(running, stopAfter, i) && !(outcome.Raised? && outcome.at == i) && i < EndOfStream(lines) {
      ExitBeforeStop(lines, running, stopAfter, outcome, i + 1);
    }
  }

  /** The elapsed times of the markers in `lines` never go down. */
  predicate MarkersNondecreasing(lines: seq<string>) {
    forall a, b :: 0 <= a < b < |lines| && TimeMarker.Marker(lines[a]).Some? && TimeMarker.Marker(lines[b]).Some? ==>
      TimeMarker.Elapsed(TimeMarker.Marker(lines[a]).value) <= TimeMarker.Elapsed(TimeMarker.Marker(lines[b]).value)
  }

  /** No marker in `lines` is beyond `bound` seconds. */
  predicate MarkersBelow(lines: seq<string>, bound: nat) {
    forall j :: 0 <= j < |lines| && TimeMarker.Marker(lines[j]).Some? ==>
      TimeMarker.Elapsed(TimeMarker.Marker(lines[j]).value) <= bound
  }

  /** The percentages of the progress events of a sequence never go down. */
  predicate PercentNondecreasing(es: seq<Event>) {
    forall a, b :: 0 <= a < b < |es| && es[a].Progress? && es[b].Progress? ==> es[a].percent <= es[b].percent
  }

  /** Only progress events, none beyond `p` percent. */
  predicate ProgressAtMost(es: seq<Event>, p: int) {
    forall k :: 0 <= k < |es| ==> es[k].Progress? && es[k].percent <= p
  }

  lemma ProgressAtMostAppend(a: seq<Event>, b: seq<Event>, p: int)
    requires ProgressAtMost(a, p) && ProgressAtMost(b, p)
    ensures ProgressAtMost(a + b, p)
  {
    forall k | 0 <= k < |a + b|
      ensures (a + b)[k].Progress? && (a + b)[k].percent <= p
    {
      if k >= |a| {
        assert (a + b)[k] == b[k - |a|];
      }
    }
  }

  /** Appending at most one event that is at least every earlier one keeps the order. */
  lemma NondecreasingSnoc(a: seq<Event>, b: seq<Event>)
    requires PercentNondecreasing(a) && |b| <= 1
    requires b != [] ==> b[0].Progress? && ProgressAtMost(a, b[0].percent)
    ensures PercentNondecreasing(a + b)
  {
    var r := a + b;
    forall x, y | 0 <= x < y < |r| && r[x].Progress? && r[y].Progress?
      ensures r[x].percent <= r[y].percent
    {
      assert r[x] == a[x];
      if y >= |a| {
        assert r[y] == b[0];
      } else {
        assert r[y] == a[y];
      }
    }
  }

  /** A line whose marker is at most `bound` seconds reports at most the percentage of `bound`. */
  lemma LineEventsAtMost(line: string, duration: real, bound: nat)
    requires duration > 0.0
    requires TimeMarker.Marker(line).Some? ==> TimeMarker.Elapsed(TimeMarker.Marker(line).value) <= bound
    ensures ProgressAtMost(LineEvents(line, duration), Percentage.Percent(bound, duration))
  {
    var marker := TimeMarker.Marker(line);
    if marker.Some? {
      Percentage.PercentMonotone(TimeMarker.Elapsed(marker.value), bound, duration);
    }
  }

  /** No marker beyond `bound` seconds gives no percentage beyond that of `bound`. */
  lemma {:induction false} EventsBelow(lines: seq<string>, duration: real, bound: nat)
    requires duration > 0.0 && MarkersBelow(lines, bound)
    ensures ProgressAtMost(LoopEvents(lines, duration), Percentage.Percent(bound, duration))
  {
    if lines != [] {
      var front, line := lines[..|lines| - 1], lines[|lines| - 1];
      assert MarkersBelow(front, bound) by {
        forall j | 0 <= j < |front|
          ensures front[j] == lines[j]
        {
        }
      }
      EventsBelow(front, duration, bound);
      LineEventsAtMost(line, duration, bound);
      ProgressAtMostAppend(LoopEvents(front, duration), LineEvents(line, duration), Percentage.Percent(bound, duration));
    }
  }

  /** When the markers' times never go down, neither do the reported percentages. */
  lemma {:induction false} ProgressNondecreasing(lines: seq<string>, duration: real)
    requires duration > 0.0 && MarkersNondecreasing(lines)
    ensures PercentNondecreasing(LoopEvents(lines, duration))
  {
    if lines != [] {
      var front, line := lines[..|lines| - 1], lines[|lines| - 1];
      assert MarkersNondecreasing(front) by {
        forall a, b | 0 <= a < b < |front|
          ensures front[a] == lines[a] && front[b] == lines[b]
        {
        }
      }
      ProgressNondecreasing(front, duration);
      var last := LineEvents(line, duration);
      LineEventsIsProgress(line, duration);
      if last != [] {
        var marker := TimeMarker.Marker(line);
        var x := TimeMarker.Elapsed(marker.value);
        assert MarkersBelow(front, x) by {
          forall j | 0 <= j < |front| && TimeMarker.Marker(front[j]).Some?
            ensures TimeMarker.Elapsed(TimeMarker.Marker(front[j]).value) <= x
          {
            assert front[j] == lines[j];
          }
        }
        EventsBelow(front, duration, x);
      }
      NondecreasingSnoc(LoopEvents(front, duration), last);
    }
  }

  /** Appending events none of which is a progress event keeps the order. */
  lemma NondecreasingThenOthers(a: seq<Event>, b: seq<Event>)
    requires PercentNondecreasing(a)
    requires forall k :: 0 <= k < |b| ==> !b[k].Progress?
    ensures PercentNondecreasing(a + b)
  {
    var r := a + b;
    forall k | |a| <= k < |r|
      ensures !r[k].Progress?
    {
      assert r[k] == b[k - |a|];
    }
    forall x, y | 0 <= x < y < |r| && r[x].Progress? && r[y].Progress?
      ensures r[x].percent <= r[y].percent
    {
      assert r[x] == a[x] && r[y] == a[y];
    }
  }

  /** When the markers' times never go down, the percentages a whole run reports never go down
      either, the closing 100% included. */
  lemma SuperviseNondecreasing(lines: seq<string>, duration: real, running: bool, stopAfter: Option<nat>, outcome: Outcome)
    requires duration > 0.0 && MarkersNondecreasing(lines)
    ensures PercentNondecreasing(Supervise(lines, duration, running, stopAfter, outcome))
  {
    var n := ExitIndex(lines, running, stopAfter, outcome, 0);
    var front := lines[..n];
    assert MarkersNondecreasing(front) by {
      forall a, b | 0 <= a < b < |front|
        ensures front[a] == lines[a] && front[b] == lines[b]
      {
      }
    }
    var loop := LoopEvents(front, duration);
    ProgressNondecreasing(front, duration);
    var end := Ending(lines, n, outcome);
    assert Supervise(lines, duration, running, stopAfter, outcome) == loop + end;
    if outcome == Exited(0) {
      LoopEventsAreProgress(front, duration);
      assert ProgressAtMost(loop, 100);
      NondecreasingSnoc(loop, [Progress(100)]);
      NondecreasingThenOthers(loop + [Progress(100)], [Finished(0)]);
      assert loop + end == loop + [Progress(100)] + [Finished(0)];
    } else {
      NondecreasingThenOthers(loop, end);
    }
  }

  class ConverterThread {
    const inputFile: string
    const outputFile: string
    const format: string
    const crf: Option<int>
    const audioBitrate: Option<string>
    var isRunning: bool
    var duration: real
    /** The argument list handed to the transcoder; empty until `Run`. */
    var command: seq<string>
    /** Every event emitted so far. */
    var events: seq<Event>

    constructor (inputFile: string, outputFile: string, format: string, crf: Option<int>, audioBitrate: Option<string>)
      ensures this.inputFile == inputFile && this.outputFile == outputFile && this.format == format
      ensures this.crf == crf && this.audioBitrate == audioBitrate
      ensures isRunning && duration == 0.0 && command == [] && events == []
    {
      this.inputFile := inputFile;
      this.outputFile := outputFile;
      this.format := format;
      this.crf := crf;
      this.audioBitrate := audioBitrate;
      isRunning := true;
      duration := 0.0;
      command := [];
      events := [];
    }

    /** Clears the cooperative flag; calling it again changes nothing more. */
    method Stop()
      modifies this`isRunning
      ensures !isRunning
    {
      isRunning := false;
    }

    method Run(probed: real, stderr: seq<string>, stopAfter: Option<nat>, outcome: Outcome)
      modifies this`isRunning, this`duration, this`command, this`events
      ensures duration == probed
      ensures command == Command.Argv(inputFile, outputFile, format, crf, audioBitrate)
      ensures events == old(events) + Supervise(stderr, probed, old(isRunning), stopAfter, outcome)
      ensures isRunning == StillRunning(old(isRunning), stopAfter, ExitIndex(stderr, old(isRunning), stopAfter, outcome, 0))
    {
      duration := probed;
      command := Command.BuildArgv(inputFile, outputFile, format, crf, audioBitrate);
      ghost var running := isRunning;
      if stopAfter.Some? && stopAfter.value == 0 {
        Stop();
      }
      var i := Follow(stderr, running, stopAfter, outcome);
      SuperviseAt(stderr, probed, running, stopAfter, outcome, i);
      AppendAssoc(old(events), LoopEvents(stderr[..i], probed), Ending(stderr, i, outcome));
      if outcome.Raised? {
        events := events + [Error(ErrorPrefix + outcome.message), Finished(1)];
      } else if outcome.code == 0 {
        events := events + [Progress(100), Finished(0)];
      } else {
        var rest := Concat(stderr[i..EndOfStream(stderr)]);
        events := events + [Error(FfmpegErrorPrefix + rest), Finished(1)];
      }
    }

    /** The body of the reading loop for one line: a progress event if the line carries a marker
        and the duration is known. */
    method Report(line: string)
      modifies this`events
      ensures events == old(events) + LineEvents(line, duration)
    {
      var marker := TimeMarker.Marker(line);
      if marker.Some? && duration > 0.0 {
        var percent := Percentage.Percent(TimeMarker.Elapsed(marker.value), duration);
        events := events + [Progress(percent)];
      }
    }

    /** The reading loop of `Run`: reads diagnostic lines while the flag is set, until a read
        raises or the stream ends, and emits the progress events; returns how many lines it processed. */
    method Follow(stderr: seq<string>, ghost running: bool, stopAfter: Option<nat>, outcome: Outcome) returns (i: nat)
      requires isRunning == StillRunning(running, stopAfter, 0)
      modifies this`isRunning, this`events
      ensures i == ExitIndex(stderr, running, stopAfter, outcome, 0)
      ensures isRunning == StillRunning(running, stopAfter, i)
      ensures events == old(events) + LoopEvents(stderr[..i], duration)
    {
      ghost var base, n := events, ExitIndex(stderr, running, stopAfter, outcome, 0);
      ghost var d := duration;
      i := 0;
      while isRunning
        invariant i <= EndOfStream(stderr)
        invariant isRunning == StillRunning(running, stopAfter, i)
        invariant ExitIndex(stderr, running, stopAfter, outcome, i) == n
        invariant events == base + LoopEvents(stderr[..i], d)
        invariant duration == d
        decreases EndOfStream(stderr) - i
      {
        if outcome.Raised? && outcome.at == i {
          break;
        }
        var line := ReadLine(stderr, i);
        if line == "" {
          break;
        }
        ghost var before := events;
        Report(line);
        Advance(stderr, d, running, stopAfter, outcome, i, line, base, before, events);
        i := i + 1;
        if stopAfter.Some? && stopAfter.value == i {
          Stop();
        }
      }
      ExitHere(stderr, running, stopAfter, outcome, i);
    }
  }
}
