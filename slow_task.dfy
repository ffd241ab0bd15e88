/**
 * The background job of src/job/slow_task.py: every queued `video_convert` task gets up to three
 * down-scaled renditions and one thumbnail in the file's scratch directory, and its task row is
 * deleted and committed before the next task starts. Running FFmpeg is a parameter that says
 * whether an invocation succeeded.
 */
module SlowTaskJob {
  import opened Wrappers
  import opened Paths
  import opened Storage
  import opened Catalog
  import opened Ffmpeg
  import opened Resolver

  datatype JobError =
    | NoSingleFile                  // `.one()` found no file row, or several
    | NoProbe                       // the stored report has no `ffprobe` entry
    | VideoError(video: FfmpegError)
    | TempError(temp: ResolveError)
    | EncodeFailed(inv: Invocation)
    | CommitError(commit: CatalogError)

  /** One rendition: encoded when the source is at least `width` wide and `threshold` KiB/s, at `bitrate` kbit/s. */
  datatype Rung = Rung(width: int, threshold: int, prefix: string, bitrate: int)

  /** Low, mid and high, tried in this order. */
  const Ladder: seq<Rung> := [
    Rung(640, 1000, "video_low", 250),
    Rung(1280, 2000, "video_mid", 500),
    Rung(1920, 4000, "video_high", 1000)
  ]

  /** The rows the job's query selects: the `video_convert` tasks, in table order. */
  function VideoTasks(tasks: seq<TaskRow>): (r: seq<TaskRow>)
    ensures forall t :: t in r <==> t in tasks && t.kind == "video_convert"
  {
    if tasks == [] then []
    else VideoTasks(tasks[..|tasks| - 1]) + (if tasks[|tasks| - 1].kind == "video_convert" then [tasks[|tasks| - 1]] else [])
  }

  /** The file rows a task's reference selects. */
  function Matching(files: seq<FileRow>, m: Uuid): (r: seq<FileRow>)
    ensures forall f :: f in r <==> f in files && f.metadataId == m
    ensures (exists i, j :: 0 <= i < j < |files| && files[i].metadataId == m && files[j].metadataId == m) ==> |r| >= 2
  {
    if files == [] then []
    else
      var init := files[..|files| - 1];
      var r := Matching(init, m) + (if files[|files| - 1].metadataId == m then [files[|files| - 1]] else []);
      assert (exists i, j :: 0 <= i < j < |files| && files[i].metadataId == m && files[j].metadataId == m) ==> |r| >= 2 by {
        if i, j :| 0 <= i < j < |files| && files[i].metadataId == m && files[j].metadataId == m {
          if j < |files| - 1 {
            assert init[i] == files[i] && init[j] == files[j];
          } else {
            assert init[i] in init;
          }
        }
      }
      r
  }

  /** `.one()`: the single matching file row, None when there is none or more than one. */
  function TaskFile(files: seq<FileRow>, task: TaskRow): (r: Option<FileRow>)
    ensures r.Some? ==> r.value in files && r.value.metadataId == task.metadataId
    ensures r.Some? ==> forall g :: g in files && g.metadataId == task.metadataId ==> g == r.value
    ensures (forall g :: g in files ==> g.metadataId != task.metadataId) ==> r.None?
    ensures (exists i, j :: 0 <= i < j < |files| && files[i].metadataId == task.metadataId && files[j].metadataId == task.metadataId) ==> r.None?
  {
    var rows := Matching(files, task.metadataId);
    if |rows| == 1 then assert rows[0] in rows; Some(rows[0]) else None
  }

  /** The `down_scale` invocation of one rung. */
  function Rendition(v: Video, temp: Path, r: Rung): Invocation {
    DownScaleInvocation(v, temp, r.prefix, r.width, r.bitrate)
  }

  /** `not check(width, bitrate)`: the rung is encoded. */
  predicate Encoded(v: Video, r: Rung) {
    Check(v, r.width, r.threshold) == Ok(false)
  }

  /** The renditions a run over `rungs` encodes for `v`, in order; the first failing `check` is the error. */
  function RungsPlan(v: Video, temp: Path, rungs: seq<Rung>): Result<seq<Invocation>, FfmpegError> {
    if rungs == [] then Ok([])
    else
      match RungsPlan(v, temp, rungs[..|rungs| - 1])
      case Err(e) => Err(e)
      case Ok(done) =>
        var r := rungs[|rungs| - 1];
        match Check(v, r.width, r.threshold)
        case Err(e) => Err(e)
        case Ok(small) => Ok(done + (if small then [] else [Rendition(v, temp, r)]))
  }

  /** Everything one task runs when nothing fails: the renditions, then exactly one thumbnail. */
  function TaskPlan(v: Video, temp: Path): Result<seq<Invocation>, FfmpegError> {
    PlanOver(v, temp, Ladder)
  }

  /** The renditions for `rungs`, then the thumbnail. */
  function PlanOver(v: Video, temp: Path, rungs: seq<Rung>): Result<seq<Invocation>, FfmpegError> {
    match RungsPlan(v, temp, rungs)
    case Err(e) => Err(e)
    case Ok(rs) => Ok(rs + [ThumbnailInvocation(v, temp, "thumbnail", FirstVideoIndex(v.probe.streams, 1).Some?)])
  }

  /** No two rungs write the same rendition. */
  predicate DistinctPrefixes(rungs: seq<Rung>) {
    forall i, j :: 0 <= i < j < |rungs| ==> rungs[i].prefix != rungs[j].prefix
  }

  /** Rungs with different prefixes write different rendition files. */
  lemma RenditionsDiffer(v: Video, temp: Path, r1: Rung, r2: Rung)
    requires r1.prefix != r2.prefix
    ensures Rendition(v, temp, r1).output != Rendition(v, temp, r2).output
  {
    var a := "hls_" + r1.prefix + ".mkv";
    var b := "hls_" + r2.prefix + ".mkv";
    assert a[4..|a| - 4] == r1.prefix;
    assert b[4..|b| - 4] == r2.prefix;
    assert OutputFile(temp, a)[|temp|] == a;
    assert OutputFile(temp, b)[|temp|] == b;
  }

  /** One more rung appends its rendition when it is encoded. */
  lemma RungsPlanSnoc(v: Video, temp: Path, rungs: seq<Rung>)
    requires rungs != [] && RungsPlan(v, temp, rungs).Ok?
    ensures RungsPlan(v, temp, rungs[..|rungs| - 1]).Ok?
    ensures RungsPlan(v, temp, rungs).value ==
      RungsPlan(v, temp, rungs[..|rungs| - 1]).value + (if Encoded(v, rungs[|rungs| - 1]) then [Rendition(v, temp, rungs[|rungs| - 1])] else [])
  {
  }

  /** Every invocation the plan holds is the rendition of one of its rungs. */
  lemma {:induction false} RungsPlanMembers(v: Video, temp: Path, rungs: seq<Rung>)
    requires RungsPlan(v, temp, rungs).Ok?
    ensures |RungsPlan(v, temp, rungs).value| <= |rungs|
    ensures forall i :: 0 <= i < |RungsPlan(v, temp, rungs).value| ==>
      exists k :: 0 <= k < |rungs| && RungsPlan(v, temp, rungs).value[i] == Rendition(v, temp, rungs[k])
    decreases |rungs|
  {
    if rungs != [] {
      var init := rungs[..|rungs| - 1];
      RungsPlanMembers(v, temp, init);
      var done := RungsPlan(v, temp, init).value;
      var plan := RungsPlan(v, temp, rungs).value;
      forall i | 0 <= i < |plan| ensures exists k :: 0 <= k < |rungs| && plan[i] == Rendition(v, temp, rungs[k]) {
        if i < |done| {
          var k :| 0 <= k < |init| && done[i] == Rendition(v, temp, init[k]);
          assert rungs[k] == init[k];
        } else {
          assert plan[i] == Rendition(v, temp, rungs[|rungs| - 1]);
        }
      }
    }
  }

  /** The last rung's rendition is not among those of the rungs before it. */
  lemma LastRenditionNew(v: Video, temp: Path, rungs: seq<Rung>)
    requires rungs != [] && DistinctPrefixes(rungs) && RungsPlan(v, temp, rungs[..|rungs| - 1]).Ok?
    ensures Rendition(v, temp, rungs[|rungs| - 1]) !in RungsPlan(v, temp, rungs[..|rungs| - 1]).value
  {
    var init := rungs[..|rungs| - 1];
    var r := rungs[|rungs| - 1];
    RungsPlanMembers(v, temp, init);
    var done := RungsPlan(v, temp, init).value;
    forall i | 0 <= i < |done| ensures done[i] != Rendition(v, temp, r) {
      var k :| 0 <= k < |init| && done[i] == Rendition(v, temp, init[k]);
      assert rungs[k] == init[k];
      RenditionsDiffer(v, temp, init[k], r);
    }
  }

  /** Rung `k` is encoded iff its `check` is false, i.e. the source meets its width and its bit rate. */
  lemma {:induction false} RungEncoded(v: Video, temp: Path, rungs: seq<Rung>, k: int)
    requires DistinctPrefixes(rungs) && RungsPlan(v, temp, rungs).Ok? && 0 <= k < |rungs|
    ensures Encoded(v, rungs[k]) <==> Rendition(v, temp, rungs[k]) in RungsPlan(v, temp, rungs).value
    decreases |rungs|
  {
    var init := rungs[..|rungs| - 1];
    var r := rungs[|rungs| - 1];
    RungsPlanSnoc(v, temp, rungs);
    var c := Rendition(v, temp, rungs[k]);
    assert c in RungsPlan(v, temp, rungs).value <==> c in RungsPlan(v, temp, init).value || (Encoded(v, r) && c == Rendition(v, temp, r));
    if k < |init| {
      assert rungs[k] == init[k];
      assert DistinctPrefixes(init) by {
        forall i, j | 0 <= i < j < |init| ensures init[i].prefix != init[j].prefix {
          assert init[i] == rungs[i] && init[j] == rungs[j];
        }
      }
      RungEncoded(v, temp, init, k);
      assert c != Rendition(v, temp, r) by { RenditionsDiffer(v, temp, init[k], r); }
    } else {
      assert rungs[k] == r;
      LastRenditionNew(v, temp, rungs);
    }
  }

  /** Every rung of the plan is encoded iff its `check` is false. */
  lemma RungsPlanEncodes(v: Video, temp: Path, rungs: seq<Rung>)
    requires DistinctPrefixes(rungs) && RungsPlan(v, temp, rungs).Ok?
    ensures forall k :: 0 <= k < |rungs| ==> (Encoded(v, rungs[k]) <==> Rendition(v, temp, rungs[k]) in RungsPlan(v, temp, rungs).value)
  {
    forall k | 0 <= k < |rungs|
      ensures Encoded(v, rungs[k]) <==> Rendition(v, temp, rungs[k]) in RungsPlan(v, temp, rungs).value
    {
      RungEncoded(v, temp, rungs, k);
    }
  }

  /**
   * The ladder is monotone: a rung is encoded only if every lower rung is, since the lower rungs
   * ask for less width and less bit rate.
   */
  lemma CheckMonotone(v: Video, w1: int, b1: int, w2: int, b2: int)
    requires w1 <= w2 && b1 <= b2 && Check(v, w2, b2) == Ok(false)
    ensures Check(v, w1, b1) == Ok(false)
  {
    CheckFalseMeansSourceMeetsRung(v, w2, b2);
  }

  /** The outputs of a successful task: at most three renditions, then `thumbnail_thumbnail.png`. */
  lemma TaskPlanShape(v: Video, temp: Path)
    requires TaskPlan(v, temp).Ok?
    ensures 1 <= |TaskPlan(v, temp).value| <= 4
    ensures TaskPlan(v, temp).value[|TaskPlan(v, temp).value| - 1].output == OutputFile(temp, "thumbnail_thumbnail.png")
  {
    RungsPlanMembers(v, temp, Ladder);
    var rs := RungsPlan(v, temp, Ladder).value;
    var th := ThumbnailInvocation(v, temp, "thumbnail", FirstVideoIndex(v.probe.streams, 1).Some?);
    assert TaskPlan(v, temp).value == rs + [th];
    assert "thumbnail_" + "thumbnail" + ".png" == "thumbnail_thumbnail.png";
  }

  // ---------------------------------------------------------------------------------------------
  // Running one task

  /**
   * The video one task works on: its single file row, the probe stored for that row's metadata,
   * and the video stream `FFmpegVideo` picks; each step's failure is the job's error.
   */
  function TaskVideo(files: seq<FileRow>, probes: map<Uuid, FfProbe>, task: TaskRow): (r: Result<(FileRow, Video), JobError>)
    ensures r.Ok? ==> r.value.0 in files && r.value.0.metadataId == task.metadataId
    ensures r.Ok? ==> r.value.0.metadataId in probes && r.value.1.inputFile == r.value.0.filename
    ensures r.Ok? ==> r.value.1.probe == probes[r.value.0.metadataId] && IsVideo(r.value.1.video)
    ensures r == Err(NoSingleFile) <==> TaskFile(files, task).None?
    ensures r == Err(NoProbe) <==> TaskFile(files, task).Some? && TaskFile(files, task).value.metadataId !in probes
    ensures var f := TaskFile(files, task);
      r.Ok? <==> (f.Some? && f.value.metadataId in probes &&
                  exists j :: 0 <= j < |probes[f.value.metadataId].streams| && IsVideo(probes[f.value.metadataId].streams[j]))
  {
    match TaskFile(files, task)
    case None => Err(NoSingleFile)
    case Some(f) =>
      if f.metadataId !in probes then Err(NoProbe)
      else
        match VideoOf(f.filename, probes[f.metadataId])
        case Err(e) => Err(VideoError(e))
        case Ok(v) => Ok((f, v))
  }

  /**
   * What the rung steps execute, in order, and how they end: a failing `check` raises before its
   * rung, a failing FFmpeg run raises after being issued; `runs(c)` says whether running `c` succeeds.
   */
  function Executed(v: Video, temp: Path, rungs: seq<Rung>, runs: Invocation -> bool): (r: (seq<Invocation>, Option<JobError>))
  {
    if rungs == [] then ([], None)
    else
      var before := Executed(v, temp, rungs[..|rungs| - 1], runs);
      if before.1.Some? then before
      else
        var r := rungs[|rungs| - 1];
        match Check(v, r.width, r.threshold)
        case Err(e) => (before.0, Some(VideoError(e)))
        case Ok(true) => before
        case Ok(false) =>
          var c := Rendition(v, temp, r);
          (before.0 + [c], if runs(c) then None else Some(EncodeFailed(c)))
  }

  /**
   * The rung steps end without an error iff every `check` gives an answer and every encode it asks
   * for succeeds; then exactly the planned renditions ran. On an error, every invocation but the
   * last issued one succeeded, and all of them are planned renditions of these rungs.
   */
  lemma {:induction false} ExecutedSpec(v: Video, temp: Path, rungs: seq<Rung>, runs: Invocation -> bool)
    ensures var (done, e) := Executed(v, temp, rungs, runs);
      e.None? <==> RungsPlan(v, temp, rungs).Ok? && forall c :: c in RungsPlan(v, temp, rungs).value ==> runs(c)
    ensures var (done, e) := Executed(v, temp, rungs, runs);
      e.None? ==> done == RungsPlan(v, temp, rungs).value
    ensures var (done, e) := Executed(v, temp, rungs, runs);
      e.Some? && e.value.EncodeFailed? ==> done != [] && done[|done| - 1] == e.value.inv && !runs(e.value.inv)
    ensures var (done, e) := Executed(v, temp, rungs, runs);
      e.Some? ==> e.value.VideoError? || e.value.EncodeFailed?
    ensures var (done, e) := Executed(v, temp, rungs, runs);
      forall k :: 0 <= k < |done| - 1 ==> runs(done[k])
    ensures var (done, e) := Executed(v, temp, rungs, runs);
      e.None? ==> forall k :: 0 <= k < |done| ==> runs(done[k])
    decreases |rungs|
  {
    if rungs != [] {
      var init := rungs[..|rungs| - 1];
      ExecutedSpec(v, temp, init, runs);
      var before := Executed(v, temp, init, runs);
      if before.1.None? {
        var r := rungs[|rungs| - 1];
        var c := Rendition(v, temp, r);
        var done := Executed(v, temp, rungs, runs).0;
        if Check(v, r.width, r.threshold) == Ok(false) {
          assert done == before.0 + [c];
          assert forall k :: 0 <= k < |before.0| ==> done[k] == before.0[k];
          assert forall x :: x in RungsPlan(v, temp, rungs).value <==> x in RungsPlan(v, temp, init).value || x == c;
        }
      }
    }
  }

  /** The thumbnail step of a task: `thumbnail(temp_dir, prefix="thumbnail")`. */
  function ThumbnailStep(v: Video, temp: Path): Invocation {
    ThumbnailInvocation(v, temp, "thumbnail", FirstVideoIndex(v.probe.streams, 1).Some?)
  }

  /** Every FFmpeg step of one task, in order, and the error that stops them, if any. */
  function TaskSteps(v: Video, temp: Path, runs: Invocation -> bool): (seq<Invocation>, Option<JobError>) {
    StepsOver(v, temp, Ladder, runs)
  }

  /** The steps for `rungs`, then the thumbnail unless a rung step raised. */
  function StepsOver(v: Video, temp: Path, rungs: seq<Rung>, runs: Invocation -> bool): (seq<Invocation>, Option<JobError>) {
    var (done, e) := Executed(v, temp, rungs, runs);
    if e.Some? then (done, e)
    else
      var th := ThumbnailStep(v, temp);
      (done + [th], if runs(th) then None else Some(EncodeFailed(th)))
  }

  /**
   * A task's FFmpeg steps all succeed iff its plan exists and every planned invocation succeeds;
   * then exactly the plan ran, the thumbnail last. Otherwise every step before the last issued one succeeded.
   */
  lemma TaskStepsSpec(v: Video, temp: Path, runs: Invocation -> bool)
    ensures TaskSteps(v, temp, runs).1.None? <==> TaskPlan(v, temp).Ok? && forall c :: c in TaskPlan(v, temp).value ==> runs(c)
    ensures TaskSteps(v, temp, runs).1.None? ==> TaskSteps(v, temp, runs).0 == TaskPlan(v, temp).value
    ensures var (done, e) := TaskSteps(v, temp, runs);
      forall k :: 0 <= k < |done| - 1 ==> runs(done[k])
    ensures var (done, e) := TaskSteps(v, temp, runs);
      e.Some? && e.value.EncodeFailed? ==> done != [] && done[|done| - 1] == e.value.inv && !runs(e.value.inv)
  {
    StepsOverSpec(v, temp, Ladder, runs);
  }

  lemma StepsOverSpec(v: Video, temp: Path, rungs: seq<Rung>, runs: Invocation -> bool)
    ensures StepsOver(v, temp, rungs, runs).1.None? <==> PlanOver(v, temp, rungs).Ok? && forall c :: c in PlanOver(v, temp, rungs).value ==> runs(c)
    ensures StepsOver(v, temp, rungs, runs).1.None? ==> StepsOver(v, temp, rungs, runs).0 == PlanOver(v, temp, rungs).value
    ensures var (done, e) := StepsOver(v, temp, rungs, runs);
      forall k :: 0 <= k < |done| - 1 ==> runs(done[k])
    ensures var (done, e) := StepsOver(v, temp, rungs, runs);
      e.Some? && e.value.EncodeFailed? ==> done != [] && done[|done| - 1] == e.value.inv && !runs(e.value.inv)
  {
    ExecutedSpec(v, temp, rungs, runs);
    var (done, e) := Executed(v, temp, rungs, runs);
    if e.None? {
      var th := ThumbnailStep(v, temp);
      assert PlanOver(v, temp, rungs).value == done + [th];
      assert forall c :: c in done + [th] <==> c in done || c == th;
    }
  }

  /** The scratch directory of a data file: `temp/x` for `base/x`. */
  function TempDirOf(file: Path): Path
    requires IsPrefix(Base, file)
  {
    Rebase(file, Base, Temp)
  }

  /**
   * How one task ends before its commit: the FFmpeg invocations it issues and the error that
   * stops it, if any; `nodes` is the disk when the task starts.
   */
  function Outcome(files: seq<FileRow>, probes: map<Uuid, FfProbe>, nodes: map<Path, Node>, runs: Invocation -> bool, task: TaskRow): (seq<Invocation>, Option<JobError>) {
    match TaskVideo(files, probes, task)
    case Err(e) => ([], Some(e))
    case Ok((f, v)) =>
      if !IsPrefix(Base, f.filename) then ([], Some(TempError(ResolveError.ValueError)))
      else if !CanEnsureDir(nodes, TempDirOf(f.filename)) then ([], Some(TempError(EnsureDirError(nodes, TempDirOf(f.filename)))))
      else TaskSteps(v, TempDirOf(f.filename), runs)
  }

  /** The rung steps and the thumbnail of one task. */
  method Encode(v: Video, temp: Path, runs: Invocation -> bool) returns (issued: seq<Invocation>, err: Option<JobError>)
    ensures (issued, err) == TaskSteps(v, temp, runs)
  {
    issued, err := RunRungs(v, temp, Ladder, runs);
    if err.Some? {
      return;
    }
    var th := Thumbnail(v, temp, "thumbnail");
    issued := issued + [th];
    if !runs(th) {
      err := Some(EncodeFailed(th));
    }
  }

  /** The `if not ffmpeg.check(...)` steps, one rung after the other; the first error stops them. */
  method RunRungs(v: Video, temp: Path, rungs: seq<Rung>, runs: Invocation -> bool) returns (issued: seq<Invocation>, err: Option<JobError>)
    ensures (issued, err) == Executed(v, temp, rungs, runs)
  {
    issued, err := [], None;
    var i := 0;
    while i < |rungs|
      invariant 0 <= i <= |rungs|
      invariant (issued, None) == Executed(v, temp, rungs[..i], runs)
    {
      assert rungs[..i + 1][..i] == rungs[..i];
      var r := rungs[i];
      var small := Check(v, r.width, r.threshold);
      if small.Err? {
        ExecutedPrefixStops(v, temp, rungs, i + 1, runs);
        return issued, Some(VideoError(small.error));
      }
      if !small.value {
        var c := Rendition(v, temp, r);
        issued := issued + [c];
        if !runs(c) {
          ExecutedPrefixStops(v, temp, rungs, i + 1, runs);
          return issued, Some(EncodeFailed(c));
        }
      }
      i := i + 1;
    }
    assert rungs[..i] == rungs;
  }

  /** Once the steps over a prefix of the rungs raised, the later rungs change nothing. */
  lemma {:induction false} ExecutedPrefixStops(v: Video, temp: Path, rungs: seq<Rung>, n: nat, runs: Invocation -> bool)
    requires n <= |rungs| && Executed(v, temp, rungs[..n], runs).1.Some?
    ensures Executed(v, temp, rungs, runs) == Executed(v, temp, rungs[..n], runs)
    decreases |rungs|
  {
    if n < |rungs| {
      var init := rungs[..|rungs| - 1];
      assert init[..n] == rungs[..n];
      ExecutedPrefixStops(v, temp, init, n, runs);
    } else {
      assert rungs[..n] == rungs;
    }
  }

  /** The disk after one task: its scratch directory made, when the task gets that far. */
  function DiskAfter(files: seq<FileRow>, probes: map<Uuid, FfProbe>, nodes: map<Path, Node>, task: TaskRow): map<Path, Node> {
    match TaskVideo(files, probes, task)
    case Err(_) => nodes
    case Ok((f, _)) =>
      if IsPrefix(Base, f.filename) && CanEnsureDir(nodes, TempDirOf(f.filename)) then AddDirs(nodes, TempDirOf(f.filename))
      else nodes
  }

  /** A task whose scratch directory can be made runs its FFmpeg steps there. */
  lemma OutcomeSteps(files: seq<FileRow>, probes: map<Uuid, FfProbe>, nodes: map<Path, Node>, runs: Invocation -> bool, task: TaskRow, f: FileRow, v: Video)
    requires TaskVideo(files, probes, task) == Ok((f, v))
    requires IsPrefix(Base, f.filename) && CanEnsureDir(nodes, TempDirOf(f.filename))
    ensures Outcome(files, probes, nodes, runs, task) == TaskSteps(v, TempDirOf(f.filename), runs)
    ensures DiskAfter(files, probes, nodes, task) == AddDirs(nodes, TempDirOf(f.filename))
  {
  }

  /** `after` keeps every entry of `before` as it was. */
  predicate Grows(before: map<Path, Node>, after: map<Path, Node>) {
    forall q :: q in before ==> q in after && after[q] == before[q]
  }

  /** A task only adds directories; when it issues anything, its scratch directory exists, under `temp` and nowhere under `base`. */
  lemma DiskAfterSpec(files: seq<FileRow>, probes: map<Uuid, FfProbe>, nodes: map<Path, Node>, runs: Invocation -> bool, task: TaskRow)
    ensures Grows(nodes, DiskAfter(files, probes, nodes, task))
    ensures Outcome(files, probes, nodes, runs, task).0 != [] ==>
      var f := TaskVideo(files, probes, task).value.0;
      IsPrefix(Base, f.filename) && IsPrefix(Temp, TempDirOf(f.filename)) && !IsPrefix(Base, TempDirOf(f.filename)) &&
      var after := DiskAfter(files, probes, nodes, task);
      TempDirOf(f.filename) in after && after[TempDirOf(f.filename)] == Dir
  {
    if Outcome(files, probes, nodes, runs, task).0 != [] {
      var f := TaskVideo(files, probes, task).value.0;
      TempDisjoint(f.filename[|Base|..]);
    }
  }

  /** The lookups of one task: its file row (`.one()`), the stored probe, and `FFmpegVideo(...)`. */
  method LoadVideo(files: seq<FileRow>, probes: map<Uuid, FfProbe>, task: TaskRow) returns (r: Result<(FileRow, Video), JobError>)
    ensures r == TaskVideo(files, probes, task)
  {
    var found := TaskFile(files, task);
    if found.None? {
      return Err(NoSingleFile);
    }
    var f := found.value;
    if f.metadataId !in probes {
      return Err(NoProbe);
    }
    var video := NewVideo(f.filename, probes[f.metadataId]);
    if video.Err? {
      return Err(VideoError(video.error));
    }
    return Ok((f, video.value));
  }

  /** `session.delete(task_orm)` then `session.commit()`. */
  method FinishTask(cat: FileCatalog, task: TaskRow, commitFails: bool) returns (r: Result<(), JobError>)
    requires cat.View() == cat.saved
    modifies cat
    ensures cat.View() == cat.saved && cat.files == old(cat.files) && cat.metadata == old(cat.metadata)
    ensures r.Ok? <==> !commitFails
    ensures r.Ok? ==> cat.tasks == WithoutTask(old(cat.tasks), task)
    ensures r.Err? ==> r == Err(CommitError(CommitFailed)) && cat.tasks == old(cat.tasks)
  {
    cat.DeleteTask(task);
    var c := cat.Commit(commitFails);
    if c.Err? {
      return Err(CommitError(c.error));
    }
    return Ok(());
  }

  /**
   * One iteration of the job's loop: find the task's file, build its `FFmpegVideo`, make its scratch
   * directory, run the FFmpeg steps, then delete the task row and commit (`commitFails` stands for a
   * database error at commit). An error leaves the committed rows as they were.
   */
  method ProcessTask(cat: FileCatalog, disk: Disk, probes: map<Uuid, FfProbe>, runs: Invocation -> bool, commitFails: bool, task: TaskRow)
    returns (issued: seq<Invocation>, r: Result<(), JobError>)
    requires cat.View() == cat.saved && disk.Valid() && ValidRows(cat.files)
    modifies cat, disk
    ensures disk.Valid() && disk.nodes == DiskAfter(old(cat.files), probes, old(disk.nodes), task)
    ensures cat.View() == cat.saved && cat.files == old(cat.files) && cat.metadata == old(cat.metadata)
    ensures issued == Outcome(old(cat.files), probes, old(disk.nodes), runs, task).0
    ensures r.Ok? <==> Outcome(old(cat.files), probes, old(disk.nodes), runs, task).1.None? && !commitFails
    ensures Outcome(old(cat.files), probes, old(disk.nodes), runs, task).1.Some? ==>
      r == Err(Outcome(old(cat.files), probes, old(disk.nodes), runs, task).1.value)
    ensures Outcome(old(cat.files), probes, old(disk.nodes), runs, task).1.None? && commitFails ==> r == Err(CommitError(CommitFailed))
    ensures r.Ok? ==> cat.tasks == WithoutTask(old(cat.tasks), task)
    ensures r.Err? ==> cat.tasks == old(cat.tasks)
  {
    ghost var out := Outcome(cat.files, probes, disk.nodes, runs, task);
    issued := [];
    var video := LoadVideo(cat.files, probes, task);
    if video.Err? {
      return issued, Err(video.error);
    }
    var (f, v) := video.value;
    assert f in cat.files;
    var temp := GetTemp(disk, f.filename);
    if temp.Err? {
      return issued, Err(TempError(temp.error));
    }
    OutcomeSteps(cat.files, probes, old(disk.nodes), runs, task, f, v);
    var err;
    issued, err := Encode(v, temp.value, runs);
    assert (issued, err) == out;
    if err.Some? {
      return issued, Err(err.value);
    }
    r := FinishTask(cat, task, commitFails);
  }

  // ---------------------------------------------------------------------------------------------
  // The whole job

  /** The task rows left once each of `done` has been deleted in turn. */
  function RemoveTasks(tasks: seq<TaskRow>, done: seq<TaskRow>): seq<TaskRow> {
    if done == [] then tasks else WithoutTask(RemoveTasks(tasks, done[..|done| - 1]), done[|done| - 1])
  }

  /** A row is left iff it was queued and not among the processed ones. */
  lemma {:induction false} RemoveTasksMembers(tasks: seq<TaskRow>, done: seq<TaskRow>)
    ensures forall t :: t in RemoveTasks(tasks, done) <==> t in tasks && t !in done
    decreases |done|
  {
    if done != [] {
      var init := done[..|done| - 1];
      RemoveTasksMembers(tasks, init);
      assert done == init + [done[|done| - 1]];
    }
  }

  /** The rows of the `slow_task` table are distinct: `id` is its primary key. */
  predicate DistinctTasks(tasks: seq<TaskRow>) {
    forall i, j :: 0 <= i < j < |tasks| ==> tasks[i] != tasks[j]
  }

  /** The selection of distinct rows holds no row twice. */
  lemma {:induction false} VideoTasksDistinct(tasks: seq<TaskRow>)
    requires DistinctTasks(tasks)
    ensures DistinctTasks(VideoTasks(tasks))
    decreases |tasks|
  {
    if tasks != [] {
      var init := tasks[..|tasks| - 1];
      var last := tasks[|tasks| - 1];
      VideoTasksDistinct(init);
      assert last !in init by {
        forall i | 0 <= i < |init| ensures init[i] != last {
          assert init[i] == tasks[i];
        }
      }
    }
  }

  /** Processing the first `n` selected tasks leaves every later selected task queued. */
  lemma StillQueued(tasks: seq<TaskRow>, selected: seq<TaskRow>, n: nat)
    requires DistinctTasks(tasks) && selected == VideoTasks(tasks) && n <= |selected|
    ensures forall k :: n <= k < |selected| ==> selected[k] in RemoveTasks(tasks, selected[..n])
  {
    VideoTasksDistinct(tasks);
    RemoveTasksMembers(tasks, selected[..n]);
    forall k | n <= k < |selected| ensures selected[k] in RemoveTasks(tasks, selected[..n]) {
      assert selected[k] in selected;
      assert selected[k] !in selected[..n] by {
        forall i | 0 <= i < n ensures selected[..n][i] != selected[k] {
          assert selected[..n][i] == selected[i];
        }
      }
    }
  }

  /** When every selected task completes, no `video_convert` task is left and every other task stays queued. */
  lemma QueueDrained(tasks: seq<TaskRow>)
    ensures forall t :: t in RemoveTasks(tasks, VideoTasks(tasks)) <==> t in tasks && t.kind != "video_convert"
  {
    RemoveTasksMembers(tasks, VideoTasks(tasks));
  }

  /** One turn of the job's loop, as the loop sees it: the tree only grows, and the task row goes iff the turn succeeds. */
  method NextTask(cat: FileCatalog, disk: Disk, probes: map<Uuid, FfProbe>, runs: Invocation -> bool, commitFails: bool, task: TaskRow)
    returns (r: Result<(), JobError>)
    requires cat.View() == cat.saved && disk.Valid() && ValidRows(cat.files)
    modifies cat, disk
    ensures disk.Valid() && Grows(old(disk.nodes), disk.nodes)
    ensures cat.View() == cat.saved && cat.files == old(cat.files) && cat.metadata == old(cat.metadata)
    ensures r.Ok? ==> cat.tasks == WithoutTask(old(cat.tasks), task)
    ensures r.Err? ==> cat.tasks == old(cat.tasks)
  {
    ghost var before := disk.nodes;
    var _, step := ProcessTask(cat, disk, probes, runs, commitFails, task);
    DiskAfterSpec(cat.files, probes, before, runs, task);
    return step;
  }

  lemma RemoveTasksStep(tasks: seq<TaskRow>, selected: seq<TaskRow>, n: nat)
    requires n < |selected|
    ensures RemoveTasks(tasks, selected[..n + 1]) == WithoutTask(RemoveTasks(tasks, selected[..n]), selected[n])
  {
    assert selected[..n + 1][..n] == selected[..n];
  }

  lemma GrowsTrans(a: map<Path, Node>, b: map<Path, Node>, c: map<Path, Node>)
    requires Grows(a, b) && Grows(b, c)
    ensures Grows(a, c)
  {
  }

  /**
   * `slow_task()`: the `video_convert` tasks, selected once, are processed in table order; the
   * first error stops the job. `commitFails(i)` stands for a database error at the `i`-th commit.
   * `done` tasks were completed and committed; the job succeeds iff all of them were.
   */
  method RunSlowTask(cat: FileCatalog, disk: Disk, probes: map<Uuid, FfProbe>, runs: Invocation -> bool, commitFails: nat -> bool)
    returns (done: nat, r: Result<(), JobError>)
    requires cat.View() == cat.saved && disk.Valid() && ValidRows(cat.files) && DistinctTasks(cat.tasks)
    modifies cat, disk
    ensures disk.Valid() && Grows(old(disk.nodes), disk.nodes)
    ensures cat.View() == cat.saved && cat.files == old(cat.files) && cat.metadata == old(cat.metadata)
    ensures done <= |VideoTasks(old(cat.tasks))|
    ensures cat.tasks == RemoveTasks(old(cat.tasks), VideoTasks(old(cat.tasks))[..done])
    ensures r.Ok? <==> done == |VideoTasks(old(cat.tasks))|
    ensures r.Err? ==> forall k :: done <= k < |VideoTasks(old(cat.tasks))| ==> VideoTasks(old(cat.tasks))[k] in cat.tasks
  {
    var selected := VideoTasks(cat.tasks);
    ghost var queued := cat.tasks;
    done := 0;
    while done < |selected|
      invariant done <= |selected|
      invariant disk.Valid() && Grows(old(disk.nodes), disk.nodes)
      invariant cat.View() == cat.saved && cat.files == old(cat.files) && cat.metadata == old(cat.metadata)
      invariant cat.tasks == RemoveTasks(queued, selected[..done])
    {
      ghost var before := disk.nodes;
      var step := NextTask(cat, disk, probes, runs, commitFails(done), selected[done]);
      GrowsTrans(old(disk.nodes), before, disk.nodes);
      if step.Err? {
        StillQueued(queued, selected, done);
        return done, Err(step.error);
      }
      RemoveTasksStep(queued, selected, done);
      done := done + 1;
    }
    assert selected[..done] == selected;
    return done, Ok(());
  }
}
