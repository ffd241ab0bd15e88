/**
 * `FFmpegWrapper` / `FFmpegVideo` of src/util/ffmpeg.py: choosing streams from an `ffprobe` report,
 * the rendition check, and the FFmpeg invocations that `thumbnail` and `down_scale` build.
 * Running FFmpeg is not modelled; an invocation is the record of its input, output and options.
 */
module Ffmpeg {
  import opened Wrappers
  import opened Paths
  import opened Numbers

  /** One entry of `ffprobe["streams"]`: `codec_type`, `width` and the textual `bit_rate` (absent for some streams). */
  datatype ProbeStream = ProbeStream(codecType: string, width: int, bitRate: Option<string>)

  /** An `ffprobe` report, as far as the stream choice reads it. */
  datatype FfProbe = FfProbe(streams: seq<ProbeStream>)

  datatype FfmpegError =
    | NoVideoStream      // `ValueError("No video stream found")`
    | MissingBitRate     // `KeyError` on `video["bit_rate"]`
    | BadBitRate         // `ValueError` from `int(video["bit_rate"])`

  /** `FFmpegVideo`: the input file, its report and the chosen video stream. */
  datatype Video = Video(inputFile: Path, probe: FfProbe, video: ProbeStream)

  /** An option of an FFmpeg output; `None` is a flag without a value such as `-y`. */
  datatype Invocation = Invocation(input: Path, output: Path, options: seq<(string, Option<string>)>)

  predicate IsVideo(s: ProbeStream) {
    s.codecType == "video"
  }

  /** `from_file`: the parsed report, or `{"format": {}, "streams": []}` when probing raised. */
  function FromFile(probed: Option<FfProbe>): (p: FfProbe)
    ensures probed.None? ==> p.streams == []
    ensures probed.Some? ==> p == probed.value
  {
    match probed
    case None => FfProbe([])
    case Some(p) => p
  }

  /** `streams[i]` is the first video stream at or after `from`. */
  predicate FirstVideoFrom(streams: seq<ProbeStream>, from: nat, i: int) {
    from <= i < |streams| && IsVideo(streams[i]) && forall j :: from <= j < i ==> !IsVideo(streams[j])
  }

  /** The position of the first video stream at or after `from`. */
  function FirstVideoIndex(streams: seq<ProbeStream>, from: nat): (r: Option<nat>)
    ensures r.Some? ==> FirstVideoFrom(streams, from, r.value)
    ensures r.None? ==> forall j :: from <= j < |streams| ==> !IsVideo(streams[j])
    decreases |streams| - from
  {
    if from >= |streams| then None
    else if IsVideo(streams[from]) then Some(from)
    else FirstVideoIndex(streams, from + 1)
  }

  /** The loop of `get_video_stream` (`from == 0`) and of `get_thumbnail_stream` (`from == 1`, the `[1:]` slice). */
  method FindVideo(streams: seq<ProbeStream>, from: nat) returns (r: Option<ProbeStream>)
    ensures r.None? <==> forall j :: from <= j < |streams| ==> !IsVideo(streams[j])
    ensures r.Some? ==> exists i :: FirstVideoFrom(streams, from, i) && r.value == streams[i]
    ensures r == match FirstVideoIndex(streams, from) case None => None case Some(i) => Some(streams[i])
  {
    var i := from;
    while i < |streams|
      invariant from <= i
      invariant forall j :: from <= j < i && j < |streams| ==> !IsVideo(streams[j])
      invariant FirstVideoIndex(streams, from) == FirstVideoIndex(streams, i)
    {
      if IsVideo(streams[i]) {
        assert FirstVideoFrom(streams, from, i);
        return Some(streams[i]);
      }
      i := i + 1;
    }
    return None;
  }

  /** `get_video_stream`: the first stream whose `codec_type` is `video`, or None. */
  method GetVideoStream(p: FfProbe) returns (r: Option<ProbeStream>)
    ensures r.None? <==> forall j :: 0 <= j < |p.streams| ==> !IsVideo(p.streams[j])
    ensures r.Some? ==> exists i :: FirstVideoFrom(p.streams, 0, i) && r.value == p.streams[i]
    ensures r == match FirstVideoIndex(p.streams, 0) case None => None case Some(i) => Some(p.streams[i])
  {
    r := FindVideo(p.streams, 0);
  }

  /** `get_thumbnail_stream`: the same search with the first stream skipped, whatever its type. */
  method GetThumbnailStream(p: FfProbe) returns (r: Option<ProbeStream>)
    ensures r.None? <==> forall j :: 1 <= j < |p.streams| ==> !IsVideo(p.streams[j])
    ensures r.Some? ==> exists i :: FirstVideoFrom(p.streams, 1, i) && r.value == p.streams[i]
  {
    r := FindVideo(p.streams, 1);
  }

  /** The object `FFmpegVideo(input_file, ffprobe)` constructs, as a value. */
  function VideoOf(inputFile: Path, p: FfProbe): Result<Video, FfmpegError> {
    match FirstVideoIndex(p.streams, 0)
    case None => Err(NoVideoStream)
    case Some(i) => Ok(Video(inputFile, p, p.streams[i]))
  }

  /** `FFmpegVideo(input_file, ffprobe)`: raises `ValueError` iff the report has no video stream. */
  method NewVideo(inputFile: Path, p: FfProbe) returns (r: Result<Video, FfmpegError>)
    ensures r.Err? <==> forall j :: 0 <= j < |p.streams| ==> !IsVideo(p.streams[j])
    ensures r.Err? ==> r.error == NoVideoStream
    ensures r.Ok? ==> r.value.inputFile == inputFile && r.value.probe == p && IsVideo(r.value.video)
    ensures r.Ok? ==> exists i :: FirstVideoFrom(p.streams, 0, i) && r.value.video == p.streams[i]
    ensures r == VideoOf(inputFile, p)
  {
    var v := GetVideoStream(p);
    if v.None? {
      return Err(NoVideoStream);
    }
    assert exists i :: FirstVideoFrom(p.streams, 0, i) && v.value == p.streams[i];
    return Ok(Video(inputFile, p, v.value));
  }

  /** `FFmpegVideo.from_file(f)` when probing raised: the fallback report has no streams, so construction raises. */
  method NewVideoAfterFailedProbe(inputFile: Path) returns (r: Result<Video, FfmpegError>)
    ensures r == Err(NoVideoStream)
  {
    r := NewVideo(inputFile, FromFile(None));
  }

  /**
   * `check(width, bitrate)`: true (too small to encode this rung) iff the source is narrower than
   * `width`, or else its bit rate is below `bitrate` KiB/s; a missing or non-numeric `bit_rate`
   * raises once the width test has passed.
   */
  function Check(v: Video, width: int, bitrate: int): (r: Result<bool, FfmpegError>)
    ensures v.video.width < width ==> r == Ok(true)
    ensures v.video.width >= width && v.video.bitRate.None? ==> r == Err(MissingBitRate)
    ensures v.video.width >= width && v.video.bitRate.Some? ==>
      match ParseInt(v.video.bitRate.value)
      case None => r == Err(BadBitRate)
      case Some(b) => r == Ok(b < bitrate * 1024)
  {
    if v.video.width < width then Ok(true)
    else if v.video.bitRate.None? then Err(MissingBitRate)
    else match ParseInt(v.video.bitRate.value)
      case None => Err(BadBitRate)
      case Some(b) => Ok(b < bitrate * 1024)
  }

  /** A rung is encoded only when the source meets both its width and its bit rate. */
  lemma CheckFalseMeansSourceMeetsRung(v: Video, width: int, bitrate: int)
    requires Check(v, width, bitrate) == Ok(false)
    ensures v.video.width >= width
    ensures v.video.bitRate.Some? && ParseInt(v.video.bitRate.value).Some?
    ensures ParseInt(v.video.bitRate.value).value >= bitrate * 1024
  {
  }

  /** The value of option `key`, if the invocation has it. */
  function Opt(options: seq<(string, Option<string>)>, key: string): Option<Option<string>> {
    if options == [] then None
    else if options[0].0 == key then Some(options[0].1)
    else Opt(options[1..], key)
  }

  /** `output_dir.joinpath(name)` */
  function OutputFile(outputDir: Path, name: string): Path {
    outputDir + [name]
  }

  /**
   * `thumbnail(output_dir, prefix)`: writes `thumbnail_{prefix}.png`; when no thumbnail stream was `found` it
   * grabs one frame at 1 s scaled to fit 320x320, otherwise it copies one frame of video stream `v:1`.
   */
  function ThumbnailInvocation(v: Video, outputDir: Path, prefix: string, found: bool): (c: Invocation)
    ensures c.input == v.inputFile && c.output == OutputFile(outputDir, "thumbnail_" + prefix + ".png")
    ensures !found ==> Opt(c.options, "ss") == Some(Some("1")) && Opt(c.options, "vf") == Some(Some("scale=320:320:force_original_aspect_ratio=decrease")) && Opt(c.options, "map") == None
    ensures found ==> Opt(c.options, "map") == Some(Some("v:1")) && Opt(c.options, "c") == Some(Some("copy")) && Opt(c.options, "ss") == None
    ensures Opt(c.options, "frames:v") == Some(Some("1")) && Opt(c.options, "y") == Some(None)
  {
    var out := OutputFile(outputDir, "thumbnail_" + prefix + ".png");
    if !found then
      Invocation(v.inputFile, out, [("ss", Some("1")), ("vf", Some("scale=320:320:force_original_aspect_ratio=decrease")), ("frames:v", Some("1")), ("y", None)])
    else
      Invocation(v.inputFile, out, [("map", Some("v:1")), ("c", Some("copy")), ("frames:v", Some("1")), ("y", None)])
  }

  /** The invocation `thumbnail` runs, with the stream choice made by `get_thumbnail_stream`. */
  method Thumbnail(v: Video, outputDir: Path, prefix: string) returns (c: Invocation)
    ensures c.output == OutputFile(outputDir, "thumbnail_" + prefix + ".png")
    ensures (Opt(c.options, "map") == Some(Some("v:1"))) <==> exists j :: 1 <= j < |v.probe.streams| && IsVideo(v.probe.streams[j])
    ensures c == ThumbnailInvocation(v, outputDir, prefix, FirstVideoIndex(v.probe.streams, 1).Some?)
  {
    var thumb := GetThumbnailStream(v.probe);
    c := ThumbnailInvocation(v, outputDir, prefix, thumb.Some?);
  }

  /**
   * `down_scale(output_dir, prefix, width, bitrate)`: an NVENC H.264 encode to `hls_{prefix}.mkv`
   * scaled to `width` (height by aspect) at `bitrate` kbit/s, audio copied.
   */
  function DownScaleInvocation(v: Video, outputDir: Path, prefix: string, width: int, bitrate: int): (c: Invocation)
    ensures c.input == v.inputFile && c.output == OutputFile(outputDir, "hls_" + prefix + ".mkv")
    ensures Opt(c.options, "c:v") == Some(Some("h264_nvenc")) && Opt(c.options, "c:a") == Some(Some("copy"))
    ensures Opt(c.options, "vf") == Some(Some("scale=" + IntToString(width) + ":-1"))
    ensures Opt(c.options, "b:v") == Some(Some(IntToString(bitrate) + "k"))
    ensures Opt(c.options, "y") == Some(None)
  {
    var scale := Some("scale=" + IntToString(width) + ":-1");
    var rate := Some(IntToString(bitrate) + "k");
    var opts := [("c:v", Some("h264_nvenc")), ("c:a", Some("copy")), ("vf", scale), ("b:v", rate), ("y", None)];
    assert opts[1..] == [("c:a", Some("copy")), ("vf", scale), ("b:v", rate), ("y", None)];
    assert opts[1..][1..] == [("vf", scale), ("b:v", rate), ("y", None)];
    assert opts[1..][1..][1..] == [("b:v", rate), ("y", None)];
    assert opts[1..][1..][1..][1..] == [("y", None)];
    assert Opt(opts[1..][1..][1..], "y") == Some(None);
    assert Opt(opts[1..][1..], "y") == Some(None) && Opt(opts[1..][1..], "b:v") == Some(rate);
    assert Opt(opts[1..], "y") == Some(None) && Opt(opts[1..], "b:v") == Some(rate) && Opt(opts[1..], "vf") == Some(scale);
    Invocation(v.inputFile, OutputFile(outputDir, "hls_" + prefix + ".mkv"), opts)
  }

  /** The encode bit rate can be read back from the `b:v` option: the text before `k` is the number passed. */
  lemma DownScaleBitrateReadable(v: Video, outputDir: Path, prefix: string, width: int, bitrate: int)
    ensures var b := Opt(DownScaleInvocation(v, outputDir, prefix, width, bitrate).options, "b:v").value.value;
      |b| >= 2 && b[|b| - 1] == 'k' && ParseInt(b[..|b| - 1]) == Some(bitrate)
  {
    var s := IntToString(bitrate) + "k";
    assert s[..|s| - 1] == IntToString(bitrate);
    IntRoundTrip(bitrate);
  }

  // ---------------------------------------------------------------------------------------------
  // Which stream `-map v:1` names

  /** The positions of the video streams, in order: `v:k` is `streams[VideoPositions(streams)[k]]`. */
  function VideoPositions(streams: seq<ProbeStream>): (ps: seq<nat>)
    ensures forall k :: 0 <= k < |ps| ==> ps[k] < |streams| && IsVideo(streams[ps[k]])
    ensures forall k, l :: 0 <= k < l < |ps| ==> ps[k] < ps[l]
    ensures forall j :: 0 <= j < |streams| && IsVideo(streams[j]) ==> j in ps
  {
    if streams == [] then []
    else
      var init := VideoPositions(streams[..|streams| - 1]);
      if IsVideo(streams[|streams| - 1]) then init + [|streams| - 1] else init
  }

  /**
   * As written, `get_thumbnail_stream` can find a stream while `-map v:1` names none: with an audio
   * stream first and a single video stream second, the `[1:]` slice finds the only video stream,
   * which is `v:0`.
   */
  lemma ThumbnailMapMissesStream()
    ensures var streams := [ProbeStream("audio", 0, None), ProbeStream("video", 1920, Some("4000000"))];
      FirstVideoFrom(streams, 1, 1) && |VideoPositions(streams)| == 1
  {
    var streams := [ProbeStream("audio", 0, None), ProbeStream("video", 1920, Some("4000000"))];
    assert streams[..1] == [ProbeStream("audio", 0, None)];
    assert VideoPositions(streams[..1]) == [] by {
      assert streams[..1][..0] == [];
    }
  }

  /** The second video stream, the one `-map v:1` copies, found by counting video streams. */
  method GetSecondVideoStream(p: FfProbe) returns (r: Option<ProbeStream>)
    ensures r.Some? <==> |VideoPositions(p.streams)| >= 2
    ensures r.Some? ==> r.value == p.streams[VideoPositions(p.streams)[1]]
  {
    var i, seen := 0, 0;
    while i < |p.streams|
      invariant 0 <= i <= |p.streams|
      invariant seen == |VideoPositions(p.streams[..i])| && seen <= 1
    {
      VideoPositionsStep(p.streams, i);
      if IsVideo(p.streams[i]) {
        if seen == 1 {
          SecondVideoAt(p.streams, i);
          return Some(p.streams[i]);
        }
        seen := seen + 1;
      }
      i := i + 1;
    }
    assert p.streams[..i] == p.streams;
    return None;
  }

  /** The video positions of a prefix are a prefix of the video positions. */
  lemma {:induction false} VideoPositionsPrefix(streams: seq<ProbeStream>, n: nat)
    requires n <= |streams|
    ensures |VideoPositions(streams[..n])| <= |VideoPositions(streams)|
    ensures VideoPositions(streams) [..|VideoPositions(streams[..n])|] == VideoPositions(streams[..n])
    decreases |streams| - n
  {
    if n < |streams| {
      VideoPositionsPrefix(streams, n + 1);
      VideoPositionsStep(streams, n);
      var a, b, c := VideoPositions(streams[..n]), VideoPositions(streams[..n + 1]), VideoPositions(streams);
      assert b[..|a|] == a;
      assert c[..|a|] == c[..|b|][..|a|];
    } else {
      assert streams[..n] == streams;
    }
  }

  /** A video stream after exactly one earlier video stream is the second one. */
  lemma SecondVideoAt(streams: seq<ProbeStream>, i: nat)
    requires i < |streams| && IsVideo(streams[i]) && |VideoPositions(streams[..i])| == 1
    ensures |VideoPositions(streams)| >= 2 && VideoPositions(streams)[1] == i
  {
    VideoPositionsStep(streams, i);
    VideoPositionsPrefix(streams, i + 1);
    var b := VideoPositions(streams[..i + 1]);
    assert |b| == 2 && b[1] == i;
  }

  lemma VideoPositionsStep(streams: seq<ProbeStream>, n: nat)
    requires n < |streams|
    ensures VideoPositions(streams[..n + 1]) == VideoPositions(streams[..n]) + if IsVideo(streams[n]) then [n] else []
  {
    assert streams[..n + 1][..n] == streams[..n];
  }

  /** The thumbnail invocation with the stream choice `-map v:1` needs: it maps `v:1` exactly when there is a second video stream. */
  method ThumbnailIntended(v: Video, outputDir: Path, prefix: string) returns (c: Invocation)
    ensures c.output == OutputFile(outputDir, "thumbnail_" + prefix + ".png")
    ensures (Opt(c.options, "map") == Some(Some("v:1"))) <==> |VideoPositions(v.probe.streams)| >= 2
  {
    var second := GetSecondVideoStream(v.probe);
    c := ThumbnailInvocation(v, outputDir, prefix, second.Some?);
  }
}
