/** The batch orchestrator (`convert_heic_batch`): back up, convert and optionally remove each
    source in order, isolating per-file failures, counting progress and collecting the results
    and the errors. */
module Batch {
  import opened Wrappers
  import opened Codec
  import opened Paths
  import opened FileStore
  import opened QualitySearch
  import opened Registry
  import opened Conversion

  /** `ConversionResult`. */
  datatype ConversionResult = ConversionResult(source: string, target: string, quality: int, sizeBytes: nat)

  /** The message of a failed removal ("converted, but the original could not be removed: ")
      is this prefix followed by `str(exc)`. */
  const NotRemovedPrefix: string := "Przekonwertowano, ale nie udało się usunąć oryginału: "

  /** An entry `(str(src), message)` of the error list. */
  datatype ConversionError = ConversionError(source: string, message: string)

  /** The returned pair `(converted, errors)`. */
  datatype BatchOutcome = BatchOutcome(converted: seq<ConversionResult>, errors: seq<ConversionError>)

  /** What the environment does to one source file: the fault `copy2` meets, what opening the image
      yields, the fault `write_bytes` meets, the fault `unlink` meets. */
  datatype FileEnv = FileEnv(
    backupFault: Option<string>,
    image: Result<Encoder, string>,
    writeFault: Option<string>,
    removeFault: Option<string>)

  /** One invocation `progress_callback(done, total)`, and whether it raised. */
  datatype ProgressCall = ProgressCall(done: nat, total: nat, raised: bool)

  /** How one source file ends: backup or conversion raised; converted; or converted but the
      removal of the original raised. */
  datatype Disposition =
    | Failed(source: string, reason: string)
    | Succeeded(result: ConversionResult)
    | SucceededNotRemoved(result: ConversionResult, reason: string)
  {
    function Source(): string {
      if Failed? then source else result.source
    }
  }

  /** The default of `backup_folder_name` ("HEIC copy"). */
  const DefaultBackupFolderName: string := "kopia heic"

  /** `Path(working_dir) / backup_folder_name`. */
  function BackupDir(workingDir: string, backupFolderName: string): (r: string)
    ensures |r| == |workingDir| + 1 + |backupFolderName|
    ensures r[..|workingDir|] == workingDir && r[|workingDir|] == '/'
    ensures r[|workingDir| + 1..] == backupFolderName
  {
    JoinDir(workingDir, backupFolderName)
  }

  /** What the quality search guarantees of every result: the quality is in [40, 95] and the file
      fits in TargetMaxBytes unless it is the QualityMin fallback. */
  predicate ResultOk(r: ConversionResult) {
    QualityMin <= r.quality <= QualityMax && (r.sizeBytes <= TargetMaxBytes || r.quality == QualityMin)
  }

  /** A disposition that belongs to `src` and whose conversion, if any, satisfies ResultOk. */
  predicate DispositionOf(src: Path, d: Disposition) {
    d.Source() == PathString(src) && (!d.Failed? ==> ResultOk(d.result))
  }

  /** The body of the loop over the sources (the `try` block of lines 80-90) for one file. */
  function ProcessFile(vol: Volume, src: Path, backupDir: string, removeSource: bool, env: FileEnv)
    : (r: (Volume, Disposition))
    ensures DispositionOf(src, r.1)
    ensures var b := BackupStep(vol, src, backupDir, env.backupFault);
      b.outcome.Fail? ==> r == (vol, Failed(PathString(src), b.outcome.error))
    ensures r.1.Failed? ==> r.0 == BackupStep(vol, src, backupDir, env.backupFault).vol
    ensures r.1.SucceededNotRemoved? ==> removeSource
    ensures src in r.0.files <==> src in vol.files && !(r.1.Succeeded? && removeSource)
  {
    var b := BackupStep(vol, src, backupDir, env.backupFault);
    if b.outcome.Fail? then (b.vol, Failed(PathString(src), b.outcome.error))
    else
      var (converted, c) := ConvertStep(b.vol, src, env.image, env.writeFault);
      if c.Failure? then (converted, Failed(PathString(src), c.error))
      else
        var res := ConversionResult(PathString(src), PathString(c.value.target), c.value.quality, c.value.size);
        if !removeSource then (converted, Succeeded(res))
        else
          var rm := RemoveStep(converted, src, env.removeFault);
          if rm.outcome.Fail? then (rm.vol, SucceededNotRemoved(res, rm.outcome.error))
          else (rm.vol, Succeeded(res))
  }

  /** When a file is converted, and what its disposition then carries: it is converted exactly when
      the backup passes and the source (named, present, decodable, writable) converts; the result
      holds `with_suffix(".jpg")` and the quality search's quality and size; a failed conversion
      reports the conversion's message; with `remove_source` a failing unlink gives the
      converted-but-not-removed disposition with the unlink's message. */
  lemma ProcessFileOutcome(vol: Volume, src: Path, backupDir: string, removeSource: bool, env: FileEnv)
    ensures var r := ProcessFile(vol, src, backupDir, removeSource, env);
      && (!r.1.Failed? <==>
          && BackupStep(vol, src, backupDir, env.backupFault).outcome.Pass?
          && src.name != "" && src in vol.files && env.image.Success? && env.writeFault.None?)
      && (!r.1.Failed? ==>
          var e := Search(env.image.value);
          r.1.result == ConversionResult(PathString(src), PathString(WithSuffix(src, JpegSuffix).value), e.quality, |e.data|))
      && (var b := BackupStep(vol, src, backupDir, env.backupFault);
          b.outcome.Pass? && r.1.Failed? ==> r.1.reason == ConvertStep(b.vol, src, env.image, env.writeFault).1.error)
      && (r.1.SucceededNotRemoved? <==> removeSource && !r.1.Failed? && env.removeFault.Some?)
      && (r.1.SucceededNotRemoved? ==> r.1.reason == env.removeFault.value)
  {
  }

  /** The loop over the sources: the volume after it and each source's disposition, in input order. */
  function RunFiles(vol: Volume, backupDir: string, removeSource: bool, paths: seq<Path>, envs: seq<FileEnv>)
    : (r: (Volume, seq<Disposition>))
    requires |envs| == |paths|
    ensures |r.1| == |paths|
    ensures forall i :: 0 <= i < |paths| ==> DispositionOf(paths[i], r.1[i])
    decreases |paths|
  {
    if |paths| == 0 then (vol, [])
    else
      var n := |paths| - 1;
      var (before, ds) := RunFiles(vol, backupDir, removeSource, paths[..n], envs[..n]);
      var (after, d) := ProcessFile(before, paths[n], backupDir, removeSource, envs[n]);
      DispositionsAppend(paths, ds, d);
      (after, ds + [d])
  }

  /** Extending the dispositions of a prefix by that of the next source keeps each disposition
      belonging to its source. */
  lemma DispositionsAppend(paths: seq<Path>, ds: seq<Disposition>, d: Disposition)
    requires |paths| > 0 && |ds| == |paths| - 1
    requires forall i :: 0 <= i < |ds| ==> DispositionOf(paths[..|ds|][i], ds[i])
    requires DispositionOf(paths[|ds|], d)
    ensures forall i :: 0 <= i < |paths| ==> DispositionOf(paths[i], (ds + [d])[i])
  {
    forall i | 0 <= i < |paths|
      ensures DispositionOf(paths[i], (ds + [d])[i])
    {
      if i < |ds| {
        assert paths[..|ds|][i] == paths[i];
      }
    }
  }

  /** What one file adds to `converted`: its result when it was converted. */
  function ResultsOfOne(d: Disposition): (r: seq<ConversionResult>)
    ensures |r| <= 1
    ensures r != [] <==> !d.Failed?
    ensures r != [] ==> r[0] == d.result
  {
    if d.Failed? then [] else [d.result]
  }

  /** What one file adds to `errors`: `str(exc)` when backup or conversion raised, the
      cleanup message when only the removal did, nothing otherwise. */
  function ErrorsOfOne(d: Disposition): (r: seq<ConversionError>)
    ensures |r| <= 1
    ensures r == [] <==> d.Succeeded?
    ensures r != [] ==> r[0].source == d.Source()
    ensures d.Failed? ==> r[0].message == d.reason
    ensures d.SucceededNotRemoved? ==> r[0].message == NotRemovedPrefix + d.reason
  {
    match d
    case Failed(source, reason) => [ConversionError(source, reason)]
    case Succeeded(_) => []
    case SucceededNotRemoved(result, reason) => [ConversionError(result.source, NotRemovedPrefix + reason)]
  }

  /** The `converted` list built from the dispositions. */
  function ResultsOf(ds: seq<Disposition>): seq<ConversionResult>
    decreases |ds|
  {
    if ds == [] then [] else ResultsOf(ds[..|ds| - 1]) + ResultsOfOne(ds[|ds| - 1])
  }

  /** The `errors` list built from the dispositions. */
  function ErrorsOf(ds: seq<Disposition>): seq<ConversionError>
    decreases |ds|
  {
    if ds == [] then [] else ErrorsOf(ds[..|ds| - 1]) + ErrorsOfOne(ds[|ds| - 1])
  }

  /** Inputs that ended with an error and no result. */
  function CountFailed(ds: seq<Disposition>): nat
    decreases |ds|
  {
    if ds == [] then 0 else CountFailed(ds[..|ds| - 1]) + (if ds[|ds| - 1].Failed? then 1 else 0)
  }

  /** Inputs that ended with both a result and an error. */
  function CountNotRemoved(ds: seq<Disposition>): nat
    decreases |ds|
  {
    if ds == [] then 0 else CountNotRemoved(ds[..|ds| - 1]) + (if ds[|ds| - 1].SucceededNotRemoved? then 1 else 0)
  }

  /** Every input is accounted for exactly once: results plus failed inputs make up the batch, and
      there is one error per failed input plus one per input converted but not removed. */
  lemma {:induction false} BatchAccounting(ds: seq<Disposition>)
    ensures |ResultsOf(ds)| + CountFailed(ds) == |ds|
    ensures |ErrorsOf(ds)| == CountFailed(ds) + CountNotRemoved(ds)
    decreases |ds|
  {
    if ds != [] {
      BatchAccounting(ds[..|ds| - 1]);
    }
  }

  lemma {:induction false} ResultsOfAppend(a: seq<Disposition>, b: seq<Disposition>)
    ensures ResultsOf(a + b) == ResultsOf(a) + ResultsOf(b)
    decreases |b|
  {
    if b != [] {
      assert (a + b)[..|a + b| - 1] == a + b[..|b| - 1];
      ResultsOfAppend(a, b[..|b| - 1]);
    } else {
      assert a + b == a;
    }
  }

  lemma {:induction false} ErrorsOfAppend(a: seq<Disposition>, b: seq<Disposition>)
    ensures ErrorsOf(a + b) == ErrorsOf(a) + ErrorsOf(b)
    decreases |b|
  {
    if b != [] {
      assert (a + b)[..|a + b| - 1] == a + b[..|b| - 1];
      ErrorsOfAppend(a, b[..|b| - 1]);
    } else {
      assert a + b == a;
    }
  }

  /** Results are appended in input order: the result of input i sits right after the results of
      the inputs before it. */
  lemma ResultsInInputOrder(ds: seq<Disposition>, i: int)
    requires 0 <= i < |ds| && !ds[i].Failed?
    ensures |ResultsOf(ds[..i])| < |ResultsOf(ds)|
    ensures ResultsOf(ds)[|ResultsOf(ds[..i])|] == ds[i].result
  {
    assert ds == ds[..i] + [ds[i]] + ds[i + 1..];
    ResultsOfAppend(ds[..i] + [ds[i]], ds[i + 1..]);
    ResultsOfAppend(ds[..i], [ds[i]]);
    assert ResultsOf([ds[i]]) == [ds[i].result] by {
      assert [ds[i]][..0] == [];
    }
  }

  /** Errors are appended in input order: the first error of input i sits right after the errors
      of the inputs before it. */
  lemma ErrorsInInputOrder(ds: seq<Disposition>, i: int)
    requires 0 <= i < |ds| && !ds[i].Succeeded?
    ensures |ErrorsOf(ds[..i])| < |ErrorsOf(ds)|
    ensures ErrorsOf(ds)[|ErrorsOf(ds[..i])|] == ErrorsOfOne(ds[i])[0]
    ensures ErrorsOf(ds)[|ErrorsOf(ds[..i])|].source == ds[i].Source()
  {
    assert ds == ds[..i] + [ds[i]] + ds[i + 1..];
    ErrorsOfAppend(ds[..i] + [ds[i]], ds[i + 1..]);
    ErrorsOfAppend(ds[..i], [ds[i]]);
    assert ErrorsOf([ds[i]]) == ErrorsOfOne(ds[i]) by {
      assert [ds[i]][..0] == [];
    }
  }

  /** Every result in the converted list carries a quality in [40, 95] and fits in
      TargetMaxBytes unless it is the QualityMin fallback. */
  lemma {:induction false} ResultsAreOk(ds: seq<Disposition>)
    requires forall i :: 0 <= i < |ds| && !ds[i].Failed? ==> ResultOk(ds[i].result)
    ensures forall r :: r in ResultsOf(ds) ==> ResultOk(r)
    decreases |ds|
  {
    if ds != [] {
      ResultsAreOk(ds[..|ds| - 1]);
    }
  }

  /** The batch-level accounting: for N inputs, the results plus the inputs that ended with an
      error and no result number N, and every result satisfies ResultOk. */
  lemma RunFilesAccounting(vol: Volume, backupDir: string, removeSource: bool, paths: seq<Path>, envs: seq<FileEnv>)
    requires |envs| == |paths|
    ensures var ds := RunFiles(vol, backupDir, removeSource, paths, envs).1;
      && |ResultsOf(ds)| + CountFailed(ds) == |paths|
      && |ErrorsOf(ds)| == CountFailed(ds) + CountNotRemoved(ds)
      && (!removeSource ==> CountNotRemoved(ds) == 0)
      && forall r :: r in ResultsOf(ds) ==> ResultOk(r)
  {
    var ds := RunFiles(vol, backupDir, removeSource, paths, envs).1;
    BatchAccounting(ds);
    forall i | 0 <= i < |ds| && !ds[i].Failed?
      ensures ResultOk(ds[i].result)
    {
      assert DispositionOf(paths[i], ds[i]);
    }
    ResultsAreOk(ds);
    if !removeSource {
      NothingNotRemoved(vol, backupDir, paths, envs);
    }
  }

  /** Without `remove_source` no input ends converted-but-not-removed. */
  lemma {:induction false} NothingNotRemoved(vol: Volume, backupDir: string, paths: seq<Path>, envs: seq<FileEnv>)
    requires |envs| == |paths|
    ensures CountNotRemoved(RunFiles(vol, backupDir, false, paths, envs).1) == 0
    decreases |paths|
  {
    if |paths| > 0 {
      var n := |paths| - 1;
      NothingNotRemoved(vol, backupDir, paths[..n], envs[..n]);
      var ds := RunFiles(vol, backupDir, false, paths, envs).1;
      assert ds[..n] == RunFiles(vol, backupDir, false, paths[..n], envs[..n]).1;
    }
  }

  /** The progress calls `(1, total), (2, total), ...`, one per finished file. */
  function ProgressTrace(total: nat, raised: seq<bool>): (r: seq<ProgressCall>)
    ensures |r| == |raised|
    decreases |raised|
  {
    if raised == [] then []
    else ProgressTrace(total, raised[..|raised| - 1]) + [ProgressCall(|raised|, total, raised[|raised| - 1])]
  }

  /** The i-th progress call reports `(i + 1, total)`, whether or not an earlier call raised. */
  lemma {:induction false} ProgressTraceCalls(total: nat, raised: seq<bool>)
    ensures forall i :: 0 <= i < |raised| ==>
      ProgressTrace(total, raised)[i] == ProgressCall(i + 1, total, raised[i])
    decreases |raised|
  {
    if raised != [] {
      var n := |raised| - 1;
      ProgressTraceCalls(total, raised[..n]);
      forall i | 0 <= i < n
        ensures ProgressTrace(total, raised)[i] == ProgressCall(i + 1, total, raised[i])
      {
        assert raised[..n][i] == raised[i];
      }
    }
  }

  /** The `try` block of lines 80-90 followed by its `except`, for one source: `converted` and
      `errors` grow by what this file contributes. */
  method ProcessOne(
    fs: FileSystem, src: Path, backupDir: string, removeSource: bool, env: FileEnv,
    converted: seq<ConversionResult>, errors: seq<ConversionError>)
    returns (converted': seq<ConversionResult>, errors': seq<ConversionError>, ghost d: Disposition)
    modifies fs
    ensures (fs.Snapshot(), d) == ProcessFile(old(fs.Snapshot()), src, backupDir, removeSource, env)
    ensures converted' == converted + ResultsOfOne(d)
    ensures errors' == errors + ErrorsOfOne(d)
  {
    converted', errors' := converted, errors;
    var backedUp := fs.CopyToBackup(src, backupDir, env.backupFault);
    if backedUp.Fail? {
      errors' := errors' + [ConversionError(PathString(src), backedUp.error)];
      d := Failed(PathString(src), backedUp.error);
      return;
    }
    var single := ConvertSingle(fs, src, env.image, env.writeFault);
    if single.Failure? {
      errors' := errors' + [ConversionError(PathString(src), single.error)];
      d := Failed(PathString(src), single.error);
      return;
    }
    var res := ConversionResult(PathString(src), PathString(single.value.target), single.value.quality, single.value.size);
    converted' := converted' + [res];
    d := Succeeded(res);
    if removeSource {
      var removed := fs.RemoveSourceFile(src, env.removeFault);
      if removed.Fail? {
        errors' := errors' + [ConversionError(PathString(src), NotRemovedPrefix + removed.error)];
        d := SucceededNotRemoved(res, removed.error);
      }
    }
  }

  lemma ProgressTraceSnoc(total: nat, raised: seq<bool>, i: int)
    requires 0 <= i < |raised|
    ensures ProgressTrace(total, raised[..i + 1]) == ProgressTrace(total, raised[..i]) + [ProgressCall(i + 1, total, raised[i])]
  {
    assert raised[..i + 1][..i] == raised[..i];
  }

  /** One more iteration of the loop over the sources. */
  lemma RunFilesSnoc(vol: Volume, backupDir: string, removeSource: bool, paths: seq<Path>, envs: seq<FileEnv>, i: int)
    requires |envs| == |paths| && 0 <= i < |paths|
    ensures var run := RunFiles(vol, backupDir, removeSource, paths[..i], envs[..i]);
      var step := ProcessFile(run.0, paths[i], backupDir, removeSource, envs[i]);
      RunFiles(vol, backupDir, removeSource, paths[..i + 1], envs[..i + 1]) == (step.0, run.1 + [step.1])
  {
    assert paths[..i + 1][..i] == paths[..i] && envs[..i + 1][..i] == envs[..i];
  }

  /** The loop of lines 79-97 over the sources, once the backup folder exists. */
  method ConvertAll(
    fs: FileSystem, paths: seq<Path>, backupDir: string, removeSource: bool, hasCallback: bool,
    envs: seq<FileEnv>, callbackRaises: seq<bool>)
    returns (outcome: BatchOutcome, progress: seq<ProgressCall>)
    requires |envs| == |paths| && |callbackRaises| == |paths|
    modifies fs
    ensures var run := RunFiles(old(fs.Snapshot()), backupDir, removeSource, paths, envs);
      && outcome == BatchOutcome(ResultsOf(run.1), ErrorsOf(run.1))
      && fs.Snapshot() == run.0
    ensures progress == (if hasCallback then ProgressTrace(|paths|, callbackRaises) else [])
  {
    ghost var start := fs.Snapshot();
    progress := [];
    var converted: seq<ConversionResult> := [];
    var errors: seq<ConversionError> := [];
    ghost var ds: seq<Disposition> := [];
    var total := |paths|;
    var done := 0;

    for i := 0 to |paths|
      invariant fs.Snapshot() == RunFiles(start, backupDir, removeSource, paths[..i], envs[..i]).0
      invariant ds == RunFiles(start, backupDir, removeSource, paths[..i], envs[..i]).1
      invariant converted == ResultsOf(ds) && errors == ErrorsOf(ds)
      invariant done == i
      invariant hasCallback ==> progress == ProgressTrace(|paths|, callbackRaises[..i])
      invariant !hasCallback ==> progress == []
      modifies fs
    {
      ghost var before := fs.Snapshot();
      ghost var d;
      converted, errors, d := ProcessOne(fs, paths[i], backupDir, removeSource, envs[i], converted, errors);
      RunFilesSnoc(start, backupDir, removeSource, paths, envs, i);
      assert (ds + [d])[..i] == ds;
      ds := ds + [d];

      // `finally`: the counter always moves on; a raising callback's exception is swallowed,
      // so callbackRaises[i] reaches nothing but the record of the call.
      done := done + 1;
      if hasCallback {
        ProgressTraceSnoc(|paths|, callbackRaises, i);
        progress := progress + [ProgressCall(done, total, callbackRaises[i])];
      }
    }
    assert paths[..|paths|] == paths && envs[..|envs|] == envs && callbackRaises[..|paths|] == callbackRaises;
    outcome := BatchOutcome(converted, errors);
  }

  /** `convert_heic_batch`. `registry` is the process-wide flag, `pluginInstalled` whether importing
      pillow-heif would succeed, `mkdirFault` the exception `mkdir` would raise, `envs[i]` what
      happens to `paths[i]`, `callbackRaises[i]` whether the i-th progress call raises (when a
      callback is given). */
  method ConvertHeicBatch(
    fs: FileSystem, registry: HeifRegistry,
    paths: seq<Path>, workingDir: string, backupFolderName: string, removeSource: bool, hasCallback: bool,
    pluginInstalled: bool, mkdirFault: Option<string>, envs: seq<FileEnv>, callbackRaises: seq<bool>)
    returns (r: Result<BatchOutcome, string>, progress: seq<ProgressCall>)
    requires |envs| == |paths| && |callbackRaises| == |paths|
    modifies fs, registry
    ensures paths == [] ==>
      && r == Success(BatchOutcome([], []))
      && progress == []
      && fs.Snapshot() == old(fs.Snapshot())
      && registry.registered == old(registry.registered)
    ensures paths != [] && !old(registry.registered) && !pluginInstalled ==>
      && r == Failure(DependencyMissingMessage)
      && progress == []
      && fs.Snapshot() == old(fs.Snapshot())
      && !registry.registered
    ensures paths != [] && (old(registry.registered) || pluginInstalled) ==> registry.registered
    ensures paths != [] && (old(registry.registered) || pluginInstalled) ==>
      var backupDir := BackupDir(workingDir, backupFolderName);
      var made := MakeDirsStep(old(fs.Snapshot()), backupDir, mkdirFault);
      if made.outcome.Fail? then
        && r == Failure(made.outcome.error)
        && progress == []
        && fs.Snapshot() == old(fs.Snapshot())
      else
        var run := RunFiles(made.vol, backupDir, removeSource, paths, envs);
        && r == Success(BatchOutcome(ResultsOf(run.1), ErrorsOf(run.1)))
        && fs.Snapshot() == run.0
        && progress == (if hasCallback then ProgressTrace(|paths|, callbackRaises) else [])
  {
    progress := [];
    if |paths| == 0 {
      return Success(BatchOutcome([], [])), [];
    }

    var registration := registry.EnsureRegistered(pluginInstalled);
    if registration.Fail? {
      return Failure(registration.error), [];
    }

    var backupDir := BackupDir(workingDir, backupFolderName);
    var made := fs.MakeDirs(backupDir, mkdirFault);
    if made.Fail? {
      return Failure(made.error), [];
    }

    var outcome;
    outcome, progress := ConvertAll(fs, paths, backupDir, removeSource, hasCallback, envs, callbackRaises);
    r := Success(outcome);
  }
}
