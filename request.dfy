/**
 * `MediaConverter`: turning what the window holds into a conversion job. `start_conversion`
 * checks the input path, then the chosen format, then the save dialog's answer, in that order,
 * and stops at the first failure without creating a job. Otherwise it picks the job's CRF and
 * bitrate by format family and starts a fresh `ConverterThread`, first stopping the previous
 * one if it is still running.
 *
 * The file system and the save dialog are inputs: `fileExists` answers `os.path.exists`, and
 * `saveDialog` maps the default name the dialog is opened with to the path the user picks
 * (empty when the dialog is cancelled).
 */
module Request {
  import opened Wrappers
  import Command
  import CommandFacts
  import Decimal
  import Job

  /** Why `start_conversion` returned without creating a job. */
  datatype Rejection = NoInputFile | InputFileMissing | NoFormatSelected | SaveCancelled

  /** The arguments a new `ConverterThread` is created with. */
  datatype JobRequest = JobRequest(input: string, output: string, format: string, crf: Option<int>, bitrate: Option<string>)

  /** Index of the last occurrence of `c` in `s`, as `str.rfind` (None for -1). */
  function LastIndexOf(s: string, c: char): (r: Option<nat>)
    ensures r.Some? ==> r.value < |s| && s[r.value] == c
  {
    if s == [] then None
    else if s[|s| - 1] == c then Some(|s| - 1)
    else LastIndexOf(s[..|s| - 1], c)
  }

  /** `c` occurs nowhere after the reported index, and nowhere at all when none is reported. */
  lemma {:induction false} LastIndexOfIsLast(s: string, c: char)
    ensures match LastIndexOf(s, c)
      case None => c !in s
      case Some(k) => k < |s| && c !in s[k + 1..]
  {
    if s != [] && s[|s| - 1] != c {
      var front, last := s[..|s| - 1], s[|s| - 1];
      assert s == front + [last];
      LastIndexOfIsLast(front, c);
      assert LastIndexOf(s, c) == LastIndexOf(front, c);
      match LastIndexOf(front, c)
      case None =>
      case Some(k) =>
        assert s[k + 1..] == front[k + 1..] + [last];
    }
  }

  /** `os.path.basename` on POSIX: everything after the last slash. */
  function Basename(path: string): string {
    match LastIndexOf(path, '/')
    case None => path
    case Some(k) => path[k + 1..]
  }

  /** The basename is the longest suffix of the path without a slash. */
  lemma BasenameIsLastComponent(path: string)
    ensures var b := Basename(path);
      |b| <= |path| && b == path[|path| - |b|..] && '/' !in b &&
      (|b| < |path| ==> path[|path| - |b| - 1] == '/')
  {
    LastIndexOfIsLast(path, '/');
  }

  predicate AllDots(s: string) {
    forall j :: 0 <= j < |s| ==> s[j] == '.'
  }

  /** `os.path.splitext` on POSIX, for a name without slashes: the extension runs from the last
      dot, unless only dots precede that dot (a leading dot never starts an extension). */
  function SplitExt(name: string): (string, string) {
    match LastIndexOf(name, '.')
    case None => (name, "")
    case Some(k) => if AllDots(name[..k]) then (name, "") else (name[..k], name[k..])
  }

  /** Root and extension put back together give the name; a non-empty extension is one dot and
      then no dot, after a root that is not only dots; an empty one means every dot of the name
      has only dots before it. */
  lemma SplitExtSpec(name: string)
    ensures var (root, ext) := SplitExt(name);
      root + ext == name &&
      (ext != "" ==> ext[0] == '.' && '.' !in ext[1..] && !AllDots(root)) &&
      (ext == "" ==> forall j :: 0 <= j < |name| && name[j] == '.' ==> AllDots(name[..j]))
  {
    LastIndexOfIsLast(name, '.');
    match LastIndexOf(name, '.')
    case None =>
    case Some(k) =>
      if AllDots(name[..k]) {
        assert forall j :: k < j < |name| ==> name[j] == name[k + 1..][j - k - 1];
      } else {
        assert name[k..][1..] == name[k + 1..];
      }
  }

  /** The name the save dialog proposes (line 227): the input's basename without its extension,
      then a dot and the format. */
  function DefaultOutputName(path: string, format: string): string {
    SplitExt(Basename(path)).0 + "." + format
  }

  /** The proposed name ends in `.format`, has no directory part, and its stem is the input's
      basename with the extension removed. */
  lemma DefaultOutputNameParts(path: string, format: string)
    ensures var n := DefaultOutputName(path, format);
      var stem := n[..|n| - |format| - 1];
      |n| > |format| && n[|n| - |format| - 1..] == "." + format && '/' !in stem &&
      stem + SplitExt(Basename(path)).1 == Basename(path)
  {
    var n := DefaultOutputName(path, format);
    var stem := SplitExt(Basename(path)).0;
    BasenameIsLastComponent(path);
    SplitExtSpec(Basename(path));
    assert n[..|n| - |format| - 1] == stem;
    assert n[|n| - |format| - 1..] == "." + format;
    assert forall j :: 0 <= j < |stem| ==> stem[j] == Basename(path)[j];
  }

  /** Two names as `os.path` computes them: the extension goes, but a leading dot stays. */
  lemma DefaultOutputNameExamples()
    ensures DefaultOutputName("d/x.y", "mp4") == "x.mp4"
    ensures DefaultOutputName("d/.x", "mp3") == ".x.mp3"
  {
    assert LastIndexOf("d/", '/') == Some(1);
    assert LastIndexOf("d/x", '/') == Some(1) by { assert "d/x"[..2] == "d/"; }
    assert LastIndexOf("d/x.", '/') == Some(1) by { assert "d/x."[..3] == "d/x"; }
    assert LastIndexOf("d/x.y", '/') == Some(1) by { assert "d/x.y"[..4] == "d/x."; }
    assert Basename("d/x.y") == "x.y";
    assert LastIndexOf("x.y", '.') == Some(1) by { assert "x.y"[..2] == "x."; }
    assert SplitExt("x.y") == ("x", ".y") by {
      assert "x.y"[..1] == "x" && "x"[0] == 'x';
      assert "x.y"[1..] == ".y";
    }
    assert LastIndexOf("d/.", '/') == Some(1) by { assert "d/."[..2] == "d/"; }
    assert LastIndexOf("d/.x", '/') == Some(1) by { assert "d/.x"[..3] == "d/."; }
    assert Basename("d/.x") == ".x";
    assert LastIndexOf(".x", '.') == Some(0) by { assert ".x"[..1] == "."; }
    assert SplitExt(".x") == (".x", "");
  }

  /** `validate_input`: a path must be given, then it must exist. */
  function ValidateInput(path: string, fileExists: string -> bool): (r: Option<Rejection>)
    ensures r.None? <==> path != "" && fileExists(path)
    ensures r.Some? ==> r.value == NoInputFile || r.value == InputFileMissing
  {
    if path == "" then Some(NoInputFile)
    else if !fileExists(path) then Some(InputFileMissing)
    else None
  }

  /** The message box shown for a rejection; a cancelled dialog returns silently. */
  function Message(r: Rejection): (m: Option<string>)
    ensures m.None? <==> r == SaveCancelled
  {
    match r
    case NoInputFile => Some("Пожалуйста, укажите входной файл.")
    case InputFileMissing => Some("Указанный входной файл не существует.")
    case NoFormatSelected => Some("Пожалуйста, выберите формат для конвертации.")
    case SaveCancelled => None
  }

  /** The CRF a job gets: the combo's value for a video format, nothing otherwise. */
  function ChosenCrf(format: string, crfData: Option<int>): Option<int> {
    if Command.IsVideo(format) then crfData else None
  }

  /** The bitrate a job gets: the combo's value for an audio format, "128k" otherwise. */
  function ChosenBitrate(format: string, bitrateData: Option<string>): Option<string> {
    if Command.IsAudio(format) then bitrateData else Some("128k")
  }

  /** What `start_conversion` decides from the window's state, before it touches any thread. */
  function Resolve(path: string, fileExists: string -> bool, format: Option<string>,
                   saveDialog: string -> string, crfData: Option<int>, bitrateData: Option<string>): Result<JobRequest, Rejection>
  {
    match ValidateInput(path, fileExists)
    case Some(rejection) => Failure(rejection)
    case None =>
      if format.None? || format.value == "" then Failure(NoFormatSelected)
      else
        var output := saveDialog(DefaultOutputName(path, format.value));
        if output == "" then Failure(SaveCancelled)
        else Success(JobRequest(path, output, format.value,
                                ChosenCrf(format.value, crfData), ChosenBitrate(format.value, bitrateData)))
  }

  /** The checks run in order and the first failing one decides: each rejection happens exactly
      when every earlier check passed and its own failed, and a job is created exactly when all
      four pass. */
  lemma ResolveOrder(path: string, fileExists: string -> bool, format: Option<string>,
                     saveDialog: string -> string, crfData: Option<int>, bitrateData: Option<string>)
    ensures var r := Resolve(path, fileExists, format, saveDialog, crfData, bitrateData);
      var formatGiven := format.Some? && format.value != "";
      (r == Failure(NoInputFile) <==> path == "") &&
      (r == Failure(InputFileMissing) <==> path != "" && !fileExists(path)) &&
      (r == Failure(NoFormatSelected) <==> path != "" && fileExists(path) && !formatGiven) &&
      (r == Failure(SaveCancelled) <==>
        path != "" && fileExists(path) && formatGiven && saveDialog(DefaultOutputName(path, format.value)) == "") &&
      (r.Success? <==>
        path != "" && fileExists(path) && formatGiven && saveDialog(DefaultOutputName(path, format.value)) != "")
  {
  }

  /** A created job converts the given input to the chosen format, and writes where the user
      answered the dialog that proposed the default name. */
  lemma ResolvedJob(path: string, fileExists: string -> bool, format: Option<string>,
                    saveDialog: string -> string, crfData: Option<int>, bitrateData: Option<string>)
    ensures var r := Resolve(path, fileExists, format, saveDialog, crfData, bitrateData);
      r.Success? ==>
        r.value.input == path && format == Some(r.value.format) &&
        r.value.output == saveDialog(DefaultOutputName(path, r.value.format)) && r.value.output != ""
  {
  }

  /** A video job: the combo's CRF when it is truthy, and always the "128k" audio bitrate,
      whatever the bitrate combo says. */
  lemma VideoJobSettings(format: string, crfData: Option<int>, bitrateData: Option<string>)
    requires Command.IsVideo(format)
    ensures var opts := Command.Options(format, ChosenCrf(format, crfData), ChosenBitrate(format, bitrateData));
      Command.Effective(opts, "-crf") == (if Command.CrfSet(crfData) then Some(Decimal.IntToString(crfData.value)) else None) &&
      Command.Effective(opts, "-b:a") == Some("128k")
  {
    var crf, bitrate := ChosenCrf(format, crfData), ChosenBitrate(format, bitrateData);
    assert crf == crfData && bitrate == Some("128k");
    CommandFacts.VideoSettings(format, crf, bitrate);
    assert Command.BitrateOrDefault(bitrate) == "128k" by {
      assert "128k"[0] == '1';
    }
  }

  /** An audio job: no CRF whatever the CRF combo says, and the combo's bitrate when it is truthy. */
  lemma AudioJobSettings(format: string, crfData: Option<int>, bitrateData: Option<string>)
    requires Command.IsAudio(format)
    ensures var opts := Command.Options(format, ChosenCrf(format, crfData), ChosenBitrate(format, bitrateData));
      Command.Effective(opts, "-crf") == None &&
      Command.Effective(opts, "-b:a") == (if Command.BitrateSet(bitrateData) then Some(bitrateData.value) else None)
  {
    Command.AudioIsNotVideo(format);
    var crf, bitrate := ChosenCrf(format, crfData), ChosenBitrate(format, bitrateData);
    assert crf == None && bitrate == bitrateData;
    CommandFacts.AudioSettings(format, crf, bitrate);
  }

  /** What the transcoder ends up using for a created job: the combo's CRF only for a video format
      (and only when it is truthy); for a video format always the "128k" audio bitrate, whatever
      the combo says; for an audio format the combo's bitrate when it is truthy; for any other
      format neither. */
  lemma ResolvedSettings(path: string, fileExists: string -> bool, format: Option<string>,
                         saveDialog: string -> string, crfData: Option<int>, bitrateData: Option<string>)
    ensures var r := Resolve(path, fileExists, format, saveDialog, crfData, bitrateData);
      r.Success? ==>
        var opts := Command.Options(r.value.format, r.value.crf, r.value.bitrate);
        Command.Effective(opts, "-crf") ==
          (if Command.IsVideo(r.value.format) && Command.CrfSet(crfData) then Some(Decimal.IntToString(crfData.value)) else None) &&
        Command.Effective(opts, "-b:a") ==
          (if Command.IsVideo(r.value.format) then Some("128k")
           else if Command.IsAudio(r.value.format) && Command.BitrateSet(bitrateData) then Some(bitrateData.value)
           else None)
  {
    var r := Resolve(path, fileExists, format, saveDialog, crfData, bitrateData);
    if r.Success? {
      var f := r.value.format;
      if Command.IsVideo(f) {
        VideoJobSettings(f, crfData, bitrateData);
      } else if Command.IsAudio(f) {
        AudioJobSettings(f, crfData, bitrateData);
      } else {
        assert Command.Options(f, r.value.crf, r.value.bitrate) == [];
      }
    }
  }

  class MediaConverter {
    /** The most recent job's thread, if one was started. */
    var thread: Job.ConverterThread?

    constructor ()
      ensures thread == null
    {
      thread := null;
    }

    /** `start_conversion`. `active` is whether the previous thread is still executing. On a
        rejection nothing changes; otherwise an active previous thread is stopped and a fresh
        thread is created for the resolved job. */
    method StartConversion(path: string, fileExists: string -> bool, format: Option<string>,
                           saveDialog: string -> string, crfData: Option<int>, bitrateData: Option<string>,
                           active: bool)
      returns (r: Result<JobRequest, Rejection>)
      modifies this, thread
      ensures r == Resolve(path, fileExists, format, saveDialog, crfData, bitrateData)
      ensures r.Failure? ==> thread == old(thread) && (old(thread) != null ==> unchanged(old(thread)))
      ensures r.Success? ==>
        thread != null && fresh(thread) &&
        thread.inputFile == r.value.input && thread.outputFile == r.value.output &&
        thread.format == r.value.format && thread.crf == r.value.crf && thread.audioBitrate == r.value.bitrate &&
        thread.isRunning && thread.duration == 0.0 && thread.events == [] && thread.command == []
      ensures r.Success? && old(thread) != null ==>
        old(thread).isRunning == (old(thread.isRunning) && !active) &&
        old(thread).duration == old(thread.duration) &&
        old(thread).events == old(thread.events) && old(thread).command == old(thread.command)
    {
      r := Resolve(path, fileExists, format, saveDialog, crfData, bitrateData);
      if r.Failure? {
        return;
      }
      if thread != null && active {
        thread.Stop();
      }
      var j := r.value;
      thread := new Job.ConverterThread(j.input, j.output, j.format, j.crf, j.bitrate);
    }
  }
}
