/**
 * The argument vector that `ConverterThread.run` hands to the ffmpeg transcoder.
 *
 * `Argv` is the specification: the fixed prefix, the format-dependent options and the output
 * path last. `BuildArgv` builds the same list step by step, as the thread does with
 * `extend`/`append`. The lemmas state what the list means: where each option sits and which
 * value the transcoder ends up using for each option (the last one given wins).
 */
module Command {
  import opened Wrappers
  import Decimal

  const VideoFormats: seq<string> := ["mp4", "avi", "mov", "gif", "webm", "mkv"]
  const AudioFormats: seq<string> := ["mp3", "wav", "flac", "ogg", "aac"]

  predicate IsVideo(format: string) {
    format in VideoFormats
  }

  predicate IsAudio(format: string) {
    format in AudioFormats
  }

  /** Python truthiness of the optional CRF: present and non-zero. */
  predicate CrfSet(crf: Option<int>) {
    crf.Some? && crf.value != 0
  }

  /** Python truthiness of the optional audio bitrate: present and not the empty string. */
  predicate BitrateSet(bitrate: Option<string>) {
    bitrate.Some? && bitrate.value != ""
  }

  function BitrateOrDefault(bitrate: Option<string>): string {
    if BitrateSet(bitrate) then bitrate.value else "128k"
  }

  const GifFilter := "fps=10,scale=640:-1:flags=lanczos"

  /** One command-line option: a bare switch, or a flag followed by its value. */
  datatype Opt = Switch(flag: string) | Setting(flag: string, value: string)

  function RenderOpt(o: Opt): seq<string> {
    match o
    case Switch(f) => [f]
    case Setting(f, v) => [f, v]
  }

  function Render(opts: seq<Opt>): seq<string> {
    if opts == [] then [] else Render(opts[..|opts| - 1]) + RenderOpt(opts[|opts| - 1])
  }

  /** The value the transcoder uses for `flag`: the last setting of it, if any. */
  function Effective(opts: seq<Opt>, flag: string): Option<string> {
    if opts == [] then None
    else if opts[|opts| - 1].Setting? && opts[|opts| - 1].flag == flag then Some(opts[|opts| - 1].value)
    else Effective(opts[..|opts| - 1], flag)
  }

  predicate HasSwitch(opts: seq<Opt>, flag: string) {
    Switch(flag) in opts
  }

  function CrfOpts(crf: Option<int>): seq<Opt> {
    if CrfSet(crf) then [Setting("-crf", Decimal.IntToString(crf.value))] else []
  }

  /** Options that the gif and webm formats add after the libx264/CRF options. */
  function OverrideOpts(format: string): seq<Opt> {
    if format == "gif" then [Setting("-vf", GifFilter), Setting("-c:v", "gif")]
    else if format == "webm" then [Setting("-c:v", "libvpx-vp9")]
    else []
  }

  function AudioCodecOpts(format: string): seq<Opt> {
    if format == "mp3" then [Setting("-c:a", "libmp3lame"), Setting("-q:a", "2")]
    else if format == "flac" then [Setting("-c:a", "flac")]
    else if format == "ogg" then [Setting("-c:a", "libvorbis")]
    else if format == "aac" then [Setting("-c:a", "aac")]
    else []
  }

  function AudioBitrateOpts(bitrate: Option<string>): seq<Opt> {
    if BitrateSet(bitrate) then [Setting("-b:a", bitrate.value)] else []
  }

  function Options(format: string, crf: Option<int>, bitrate: Option<string>): seq<Opt> {
    if IsVideo(format) then
      [Setting("-c:v", "libx264")] + CrfOpts(crf) + OverrideOpts(format)
        + [Setting("-c:a", "aac"), Setting("-b:a", BitrateOrDefault(bitrate))]
    else if IsAudio(format) then
      [Switch("-vn")] + AudioCodecOpts(format) + AudioBitrateOpts(bitrate)
    else []
  }

  function Argv(input: string, output: string, format: string, crf: Option<int>, bitrate: Option<string>): seq<string> {
    ["ffmpeg", "-y", "-i", input] + Render(Options(format, crf, bitrate)) + [output]
  }

  /** Builds the transcoder's argument list the way `run` does, one `extend` at a time. */
  method BuildArgv(input: string, output: string, format: string, crf: Option<int>, bitrate: Option<string>)
    returns (argv: seq<string>)
    ensures argv == Argv(input, output, format, crf, bitrate)
  {
    var prefix := ["ffmpeg", "-y", "-i", input];
    argv := prefix;
    if format in ["mp4", "avi", "mov", "gif", "webm", "mkv"] {
      var opts := VideoArgs(format, crf, bitrate);
      argv := argv + opts;
    } else if format in ["mp3", "wav", "flac", "ogg", "aac"] {
      var opts := AudioArgs(format, bitrate);
      argv := argv + opts;
    }
    argv := argv + [output];
  }

  /** The video-family part of `run`: libx264, the optional CRF, the overrides, then the audio track. */
  method VideoArgs(format: string, crf: Option<int>, bitrate: Option<string>) returns (args: seq<string>)
    requires IsVideo(format)
    ensures args == Render(Options(format, crf, bitrate))
  {
    args := ["-c:v", "libx264"];
    if crf.Some? && crf.value != 0 {
      args := args + ["-crf", Decimal.IntToString(crf.value)];
    }
    ghost var done := [Setting("-c:v", "libx264")] + CrfOpts(crf);
    assert args == Render(done) by {
      RenderSetting("-c:v", "libx264");
      if CrfSet(crf) {
        RenderSetting("-crf", Decimal.IntToString(crf.value));
      }
      RenderAppend([Setting("-c:v", "libx264")], CrfOpts(crf));
    }
    if format == "gif" {
      args := args + ["-vf", GifFilter, "-c:v", "gif"];
    } else if format == "webm" {
      args := args + ["-c:v", "libvpx-vp9"];
    }
    assert args == Render(done + OverrideOpts(format)) by {
      RenderSettings("-vf", GifFilter, "-c:v", "gif");
      RenderSetting("-c:v", "libvpx-vp9");
      RenderAppend(done, OverrideOpts(format));
    }
    done := done + OverrideOpts(format);
    var rate := if bitrate.Some? && bitrate.value != "" then bitrate.value else "128k";
    args := args + ["-c:a", "aac", "-b:a", rate];
    ghost var tail := [Setting("-c:a", "aac"), Setting("-b:a", rate)];
    assert args == Render(done + tail) by {
      RenderSettings("-c:a", "aac", "-b:a", rate);
      RenderAppend(done, tail);
    }
    assert Options(format, crf, bitrate) == done + tail;
  }

  /** The audio-family part of `run`: no video, the format's codec, then the bitrate if one is set. */
  method AudioArgs(format: string, bitrate: Option<string>) returns (args: seq<string>)
    requires IsAudio(format)
    ensures args == Render(Options(format, None, bitrate))
  {
    AudioIsNotVideo(format);
    args := ["-vn"];
    var codecArgs := AudioCodecArgs(format);
    args := args + codecArgs;
    ghost var codec, rate := AudioCodecOpts(format), AudioBitrateOpts(bitrate);
    if bitrate.Some? && bitrate.value != "" {
      args := args + ["-b:a", bitrate.value];
      RenderSetting("-b:a", bitrate.value);
    }
    assert args == ["-vn"] + Render(codec) + Render(rate);
    assert Render([Switch("-vn")]) == ["-vn"] by {
      RenderSnoc([], Switch("-vn"));
      assert [] + [Switch("-vn")] == [Switch("-vn")];
    }
    RenderAppend([Switch("-vn")], codec);
    RenderAppend([Switch("-vn")] + codec, rate);
    assert Options(format, None, bitrate) == [Switch("-vn")] + codec + rate;
  }

  /** The codec choice of the audio family, one branch per format; wav adds nothing. */
  method AudioCodecArgs(format: string) returns (args: seq<string>)
    requires IsAudio(format)
    ensures args == Render(AudioCodecOpts(format))
  {
    if format == "mp3" {
      args := ["-c:a", "libmp3lame", "-q:a", "2"];
      RenderSettings("-c:a", "libmp3lame", "-q:a", "2");
    } else if format == "flac" {
      args := ["-c:a", "flac"];
      RenderSetting("-c:a", "flac");
    } else if format == "ogg" {
      args := ["-c:a", "libvorbis"];
      RenderSetting("-c:a", "libvorbis");
    } else if format == "aac" {
      args := ["-c:a", "aac"];
      RenderSetting("-c:a", "aac");
    } else {
      args := [];
    }
  }

  /** No format belongs to both families. */
  lemma AudioIsNotVideo(format: string)
    requires IsAudio(format)
    ensures !IsVideo(format)
  {
  }

  /** Rendering one more option appends its words. */
  lemma RenderSnoc(opts: seq<Opt>, o: Opt)
    ensures Render(opts + [o]) == Render(opts) + RenderOpt(o)
  {
    assert (opts + [o])[..|opts|] == opts;
  }

  lemma RenderSetting(f: string, v: string)
    ensures Render([Setting(f, v)]) == [f, v]
  {
    assert [Setting(f, v)][..0] == [];
  }

  lemma RenderSettings(f: string, v: string, g: string, w: string)
    ensures Render([Setting(f, v), Setting(g, w)]) == [f, v, g, w]
  {
    assert [Setting(f, v), Setting(g, w)][..1] == [Setting(f, v)];
    RenderSetting(f, v);
  }

  lemma {:induction false} RenderAppend(a: seq<Opt>, b: seq<Opt>)
    ensures Render(a + b) == Render(a) + Render(b)
    decreases |b|
  {
    if b == [] {
      assert a + b == a;
    } else {
      var last := b[|b| - 1];
      assert (a + b)[..|a + b| - 1] == a + b[..|b| - 1];
      RenderAppend(a, b[..|b| - 1]);
    }
  }

  /** A later setting of a flag overrides an earlier one. */
  lemma {:induction false} EffectiveAppend(a: seq<Opt>, b: seq<Opt>, flag: string)
    ensures Effective(a + b, flag) == if Effective(b, flag).Some? then Effective(b, flag) else Effective(a, flag)
    decreases |b|
  {
    if b == [] {
      assert a + b == a;
    } else {
      assert (a + b)[..|a + b| - 1] == a + b[..|b| - 1];
      EffectiveAppend(a, b[..|b| - 1], flag);
    }
  }
}

/** What the argument list means: its fixed frame, its layout per family, and the settings it selects. */
module CommandFacts {
  import opened Wrappers
  import Decimal
  import opened Command

  /** The codec flag the audio family passes for each format; wav passes none. */
  function AudioCodec(format: string): Option<string> {
    if format == "mp3" then Some("libmp3lame")
    else if format == "flac" then Some("flac")
    else if format == "ogg" then Some("libvorbis")
    else if format == "aac" then Some("aac")
    else None
  }

  /** Every audio format but wav names a codec. */
  lemma AudioCodecKnown(format: string)
    requires IsAudio(format)
    ensures !IsVideo(format)
    ensures format != "wav" <==> AudioCodec(format).Some?
  {
    AudioIsNotVideo(format);
  }

  /** Whatever the format: the overwrite flag and the input come first and the output path last. */
  lemma ArgvFrame(input: string, output: string, format: string, crf: Option<int>, bitrate: Option<string>)
    ensures var argv := Argv(input, output, format, crf, bitrate);
      |argv| >= 5 && argv[..4] == ["ffmpeg", "-y", "-i", input] && argv[|argv| - 1] == output
    ensures !IsVideo(format) && !IsAudio(format) ==>
      Argv(input, output, format, crf, bitrate) == ["ffmpeg", "-y", "-i", input, output]
  {
    if !IsVideo(format) && !IsAudio(format) {
      assert Render([]) == [];
    }
  }

  /** Positions of the video options: libx264 right after the input, the CRF next when it is set,
      the gif/webm overrides next, and the audio track just before the output path. */
  lemma VideoArgvLayout(input: string, output: string, format: string, crf: Option<int>, bitrate: Option<string>)
    requires IsVideo(format)
    ensures var argv := Argv(input, output, format, crf, bitrate);
      var n := |argv|;
      n >= 11 &&
      argv[4..6] == ["-c:v", "libx264"] &&
      (CrfSet(crf) ==> argv[6..8] == ["-crf", Decimal.IntToString(crf.value)]) &&
      (!CrfSet(crf) && format != "gif" && format != "webm" ==> n == 11) &&
      (format == "gif" ==> argv[n - 9..n - 5] == ["-vf", GifFilter, "-c:v", "gif"]) &&
      (format == "webm" ==> argv[n - 7..n - 5] == ["-c:v", "libvpx-vp9"]) &&
      argv[n - 5..n - 1] == ["-c:a", "aac", "-b:a", BitrateOrDefault(bitrate)]
  {
    var p, x, t := ["ffmpeg", "-y", "-i", input], ["-c:v", "libx264"], ["-c:a", "aac", "-b:a", BitrateOrDefault(bitrate)];
    var c, o := Render(CrfOpts(crf)), Render(OverrideOpts(format));
    assert Argv(input, output, format, crf, bitrate) == p + (x + c + o + t) + [output] by {
      var head := [Setting("-c:v", "libx264")];
      var tail := [Setting("-c:a", "aac"), Setting("-b:a", BitrateOrDefault(bitrate))];
      RenderSetting("-c:v", "libx264");
      RenderSettings("-c:a", "aac", "-b:a", BitrateOrDefault(bitrate));
      RenderAppend(head, CrfOpts(crf));
      RenderAppend(head + CrfOpts(crf), OverrideOpts(format));
      RenderAppend(head + CrfOpts(crf) + OverrideOpts(format), tail);
      assert Options(format, crf, bitrate) == head + CrfOpts(crf) + OverrideOpts(format) + tail;
    }
    assert c == if CrfSet(crf) then ["-crf", Decimal.IntToString(crf.value)] else [] by {
      if CrfSet(crf) {
        RenderSetting("-crf", Decimal.IntToString(crf.value));
      }
    }
    assert o == if format == "gif" then ["-vf", GifFilter, "-c:v", "gif"]
      else if format == "webm" then ["-c:v", "libvpx-vp9"] else [] by {
      RenderSettings("-vf", GifFilter, "-c:v", "gif");
      RenderSetting("-c:v", "libvpx-vp9");
    }
    Layout(p, x, c, o, t, output);
  }

  /** Where the parts of `p + (x + c + o + t) + [out]` sit. */
  lemma Layout(p: seq<string>, x: seq<string>, c: seq<string>, o: seq<string>, t: seq<string>, out: string)
    requires |p| == 4 && |x| == 2 && |t| == 4
    ensures var a := p + (x + c + o + t) + [out];
      var n := |a|;
      n == 11 + |c| + |o| && a[..4] == p && a[4..6] == x && a[6..6 + |c|] == c &&
      a[n - 5 - |o|..n - 5] == o && a[n - 5..n - 1] == t && a[n - 1] == out
  {
    var a := p + (x + c + o + t) + [out];
    assert a[..4] == p;
    assert a[4..6] == x;
    assert a[6..6 + |c|] == c;
    assert a[|a| - 5 - |o|..|a| - 5] == o;
    assert a[|a| - 5..|a| - 1] == t;
  }

  /** The settings a video-family list selects: the last `-c:v` wins, so gif and webm override
      libx264 whatever the CRF; the CRF appears exactly when it is truthy; the audio track is aac
      at the given bitrate or 128k; video is never disabled. */
  lemma VideoSettings(format: string, crf: Option<int>, bitrate: Option<string>)
    requires IsVideo(format)
    ensures var opts := Options(format, crf, bitrate);
      Effective(opts, "-c:v") == Some(if format == "gif" then "gif" else if format == "webm" then "libvpx-vp9" else "libx264") &&
      Effective(opts, "-crf") == (if CrfSet(crf) then Some(Decimal.IntToString(crf.value)) else None) &&
      Effective(opts, "-vf") == (if format == "gif" then Some(GifFilter) else None) &&
      Effective(opts, "-c:a") == Some("aac") &&
      Effective(opts, "-b:a") == Some(BitrateOrDefault(bitrate)) &&
      !HasSwitch(opts, "-vn")
  {
    var head := [Setting("-c:v", "libx264")];
    var tail := [Setting("-c:a", "aac"), Setting("-b:a", BitrateOrDefault(bitrate))];
    var opts := head + CrfOpts(crf) + OverrideOpts(format) + tail;
    assert Options(format, crf, bitrate) == opts;
    VideoPieces(format, crf, bitrate, "-c:v");
    VideoPieces(format, crf, bitrate, "-crf");
    VideoPieces(format, crf, bitrate, "-vf");
    VideoPieces(format, crf, bitrate, "-c:a");
    VideoPieces(format, crf, bitrate, "-b:a");
    assert forall k :: 0 <= k < |opts| ==> opts[k].Setting?;
    EffectivePair("-c:a", "aac", "-b:a", BitrateOrDefault(bitrate), "-c:v");
    EffectivePair("-c:a", "aac", "-b:a", BitrateOrDefault(bitrate), "-crf");
    EffectivePair("-c:a", "aac", "-b:a", BitrateOrDefault(bitrate), "-vf");
    if format == "gif" {
      EffectivePair("-vf", GifFilter, "-c:v", "gif", "-c:v");
      EffectivePair("-vf", GifFilter, "-c:v", "gif", "-crf");
      EffectivePair("-vf", GifFilter, "-c:v", "gif", "-vf");
    } else if format == "webm" {
      EffectiveSingle("-c:v", "libvpx-vp9", "-c:v");
      EffectiveSingle("-c:v", "libvpx-vp9", "-crf");
      EffectiveSingle("-c:v", "libvpx-vp9", "-vf");
    }
    if CrfSet(crf) {
      EffectiveSingle("-crf", Decimal.IntToString(crf.value), "-c:v");
      EffectiveSingle("-crf", Decimal.IntToString(crf.value), "-crf");
      EffectiveSingle("-crf", Decimal.IntToString(crf.value), "-vf");
    }
    EffectiveSingle("-c:v", "libx264", "-c:v");
    EffectiveSingle("-c:v", "libx264", "-crf");
    EffectiveSingle("-c:v", "libx264", "-vf");
  }

  lemma EffectiveSingle(f: string, v: string, flag: string)
    ensures Effective([Setting(f, v)], flag) == if f == flag then Some(v) else None
  {
    assert [Setting(f, v)][..0] == [];
  }

  lemma EffectivePair(f: string, v: string, g: string, w: string, flag: string)
    ensures Effective([Setting(f, v), Setting(g, w)], flag) ==
      if g == flag then Some(w) else if f == flag then Some(v) else None
  {
    assert [Setting(f, v), Setting(g, w)][..1] == [Setting(f, v)];
    EffectiveSingle(f, v, flag);
  }

  /** A video list's setting of `flag` is taken from the last of its four parts that sets it. */
  lemma VideoPieces(format: string, crf: Option<int>, bitrate: Option<string>, flag: string)
    requires IsVideo(format)
    ensures var head := [Setting("-c:v", "libx264")];
      var tail := [Setting("-c:a", "aac"), Setting("-b:a", BitrateOrDefault(bitrate))];
      Options(format, crf, bitrate) == head + CrfOpts(crf) + OverrideOpts(format) + tail &&
      Effective(Options(format, crf, bitrate), flag) ==
        if Effective(tail, flag).Some? then Effective(tail, flag)
        else if Effective(OverrideOpts(format), flag).Some? then Effective(OverrideOpts(format), flag)
        else if Effective(CrfOpts(crf), flag).Some? then Effective(CrfOpts(crf), flag)
        else Effective(head, flag)
  {
    var head := [Setting("-c:v", "libx264")];
    var tail := [Setting("-c:a", "aac"), Setting("-b:a", BitrateOrDefault(bitrate))];
    EffectiveAppend(head, CrfOpts(crf), flag);
    EffectiveAppend(head + CrfOpts(crf), OverrideOpts(format), flag);
    EffectiveAppend(head + CrfOpts(crf) + OverrideOpts(format), tail, flag);
  }

  /** A video list's CRF text reads back as the CRF that was asked for. */
  lemma VideoCrfReadsBack(format: string, crf: Option<int>, bitrate: Option<string>)
    requires IsVideo(format) && CrfSet(crf)
    ensures var e := Effective(Options(format, crf, bitrate), "-crf");
      e.Some? && Decimal.ParseInt(e.value) == crf
  {
    VideoSettings(format, crf, bitrate);
    Decimal.ParseIntToString(crf.value);
  }

  /** An audio-family list is `-vn`, the codec arguments and the bitrate arguments. */
  lemma AudioArgvShape(input: string, output: string, format: string, crf: Option<int>, bitrate: Option<string>)
    requires IsAudio(format)
    ensures Argv(input, output, format, crf, bitrate) ==
      ["ffmpeg", "-y", "-i", input] + (["-vn"] + Render(AudioCodecOpts(format)) + Render(AudioBitrateOpts(bitrate))) + [output]
  {
    AudioCodecKnown(format);
    var opts := [Switch("-vn")] + AudioCodecOpts(format) + AudioBitrateOpts(bitrate);
    assert Options(format, crf, bitrate) == opts;
    assert Render([Switch("-vn")]) == ["-vn"] by {
      assert [Switch("-vn")][..0] == [];
    }
    RenderAppend([Switch("-vn")], AudioCodecOpts(format));
    RenderAppend([Switch("-vn")] + AudioCodecOpts(format), AudioBitrateOpts(bitrate));
  }

  /** The words of the codec choice: the codec pair, and for mp3 the quality pair after it. */
  lemma RenderCodec(format: string)
    ensures Render(AudioCodecOpts(format)) ==
      if format == "mp3" then ["-c:a", "libmp3lame", "-q:a", "2"]
      else if AudioCodec(format).Some? then ["-c:a", AudioCodec(format).value]
      else []
  {
    if format == "mp3" {
      RenderSettings("-c:a", "libmp3lame", "-q:a", "2");
    } else if AudioCodec(format).Some? {
      RenderSetting("-c:a", AudioCodec(format).value);
    }
  }

  lemma RenderBitrate(bitrate: Option<string>)
    ensures Render(AudioBitrateOpts(bitrate)) == if BitrateSet(bitrate) then ["-b:a", bitrate.value] else []
  {
    if BitrateSet(bitrate) {
      RenderSetting("-b:a", bitrate.value);
    }
  }

  /** Positions of the audio options: `-vn` right after the input, the format's codec next,
      and the bitrate just before the output path exactly when it is truthy. */
  lemma AudioArgvLayout(input: string, output: string, format: string, crf: Option<int>, bitrate: Option<string>)
    requires IsAudio(format)
    ensures var argv := Argv(input, output, format, crf, bitrate);
      var n := |argv|;
      var codecArgs := if format == "mp3" then 4 else if format == "wav" then 0 else 2;
      n == 6 + codecArgs + (if BitrateSet(bitrate) then 2 else 0) &&
      argv[4] == "-vn" &&
      (AudioCodec(format).Some? ==> argv[5] == "-c:a" && argv[6] == AudioCodec(format).value) &&
      (format == "mp3" ==> argv[7] == "-q:a" && argv[8] == "2") &&
      (BitrateSet(bitrate) ==> argv[n - 3] == "-b:a" && argv[n - 2] == bitrate.value)
  {
    AudioCodecKnown(format);
    AudioArgvShape(input, output, format, crf, bitrate);
    RenderCodec(format);
    RenderBitrate(bitrate);
    AudioPositions(Argv(input, output, format, crf, bitrate), ["ffmpeg", "-y", "-i", input],
      Render(AudioCodecOpts(format)), Render(AudioBitrateOpts(bitrate)), output, format, AudioCodec(format), bitrate);
  }

  /** The positions of an audio-family list built from the codec words `c` and bitrate words `b`. */
  lemma AudioPositions(argv: seq<string>, p: seq<string>, c: seq<string>, b: seq<string>, out: string,
                       format: string, codec: Option<string>, bitrate: Option<string>)
    requires |p| == 4 && argv == p + (["-vn"] + c + b) + [out]
    requires codec.None? <==> format == "wav"
    requires format == "mp3" ==> codec == Some("libmp3lame")
    requires c == if format == "mp3" then ["-c:a", "libmp3lame", "-q:a", "2"]
      else if codec.Some? then ["-c:a", codec.value] else []
    requires b == if BitrateSet(bitrate) then ["-b:a", bitrate.value] else []
    ensures var n := |argv|;
      var codecArgs := if format == "mp3" then 4 else if format == "wav" then 0 else 2;
      n == 6 + codecArgs + (if BitrateSet(bitrate) then 2 else 0) &&
      argv[4] == "-vn" &&
      (codec.Some? ==> argv[5] == "-c:a" && argv[6] == codec.value) &&
      (format == "mp3" ==> argv[7] == "-q:a" && argv[8] == "2") &&
      (BitrateSet(bitrate) ==> argv[n - 3] == "-b:a" && argv[n - 2] == bitrate.value)
  {
    AudioLayout(p, c, b, out);
    if codec.Some? {
      assert c[0] == "-c:a" && c[1] == codec.value;
    }
  }

  /** Where the parts of `p + (["-vn"] + c + b) + [out]` sit. */
  lemma AudioLayout(p: seq<string>, c: seq<string>, b: seq<string>, out: string)
    requires |p| == 4
    ensures var a := p + (["-vn"] + c + b) + [out];
      var n := |a|;
      n == 6 + |c| + |b| && a[4] == "-vn" &&
      (forall k :: 0 <= k < |c| ==> a[5 + k] == c[k]) &&
      (forall k :: 0 <= k < |b| ==> a[n - 1 - |b| + k] == b[k])
  {
  }

  /** The settings an audio-family list selects: video is disabled, no video codec, filter or CRF
      is passed whatever the CRF, the audio codec is the format's own (none for wav), mp3 asks for
      quality 2, and the bitrate is passed exactly when it is truthy. */
  lemma AudioSettings(format: string, crf: Option<int>, bitrate: Option<string>)
    requires IsAudio(format)
    ensures var opts := Options(format, crf, bitrate);
      HasSwitch(opts, "-vn") &&
      Effective(opts, "-c:v") == None &&
      Effective(opts, "-crf") == None &&
      Effective(opts, "-vf") == None &&
      Effective(opts, "-c:a") == AudioCodec(format) &&
      Effective(opts, "-q:a") == (if format == "mp3" then Some("2") else None) &&
      Effective(opts, "-b:a") == (if BitrateSet(bitrate) then Some(bitrate.value) else None)
  {
    AudioCodecKnown(format);
    var opts := [Switch("-vn")] + AudioCodecOpts(format) + AudioBitrateOpts(bitrate);
    assert Options(format, crf, bitrate) == opts;
    assert opts[0] == Switch("-vn");
    AudioFlag(format, bitrate, "-c:v");
    AudioFlag(format, bitrate, "-crf");
    AudioFlag(format, bitrate, "-vf");
    AudioFlag(format, bitrate, "-c:a");
    AudioFlag(format, bitrate, "-q:a");
    AudioFlag(format, bitrate, "-b:a");
  }

  /** The setting of one flag in an audio-family list. */
  lemma AudioFlag(format: string, bitrate: Option<string>, flag: string)
    ensures Effective([Switch("-vn")] + AudioCodecOpts(format) + AudioBitrateOpts(bitrate), flag) ==
      if BitrateSet(bitrate) && flag == "-b:a" then Some(bitrate.value)
      else if flag == "-c:a" then AudioCodec(format)
      else if flag == "-q:a" && format == "mp3" then Some("2")
      else None
  {
    EffectiveAppend([Switch("-vn")], AudioCodecOpts(format), flag);
    EffectiveAppend([Switch("-vn")] + AudioCodecOpts(format), AudioBitrateOpts(bitrate), flag);
    assert Effective([Switch("-vn")], flag) == None by {
      assert [Switch("-vn")][..0] == [];
    }
    if BitrateSet(bitrate) {
      EffectiveSingle("-b:a", bitrate.value, flag);
    }
    if format == "mp3" {
      EffectivePair("-c:a", "libmp3lame", "-q:a", "2", flag);
    } else if AudioCodec(format).Some? {
      EffectiveSingle("-c:a", AudioCodec(format).value, flag);
    }
  }
}
