/** One backup run for a device: fetch, save, retention, success marker. */
module Backup {
  import opened Wrappers
  import opened Storage

  datatype Settings = Settings(compress: bool, days: nat, minCopies: nat)

  datatype PipelineOutcome = PipelineOutcome(changed: bool, bytes: nat, hash: Hash)

  datatype BackupError = Transport | Store(error: StorageError)

  /** A run takes `files` to `files'`. A failed fetch or save changes nothing and records
      no success; a failed retention does not stop the run. */
  ghost predicate RunStep(c: Codecs, device: string, transport: string, files: Files, fetch: Option<Artifact>,
                          cfg: Settings, retentionAt: int, doneAt: int, files': Files,
                          out: Result<PipelineOutcome, BackupError>)
    requires fetch.Some? ==> fetch.value.fetchedAt.Valid()
  {
    match fetch
    case None => out == Err(Transport) && files' == files
    case Some(a) => exists saved: Files, outcome: Result<SaveOutcome, StorageError> ::
      && SaveStep(c, device, transport, files, a, cfg.compress, saved, outcome)
      && match outcome
         case Err(e) => out == Err(Store(e)) && files' == saved
         case Ok(o) =>
           && FinishStep(c, device, saved, cfg, retentionAt, doneAt, files')
           && out == Ok(PipelineOutcome(o.changed, |a.content|, o.sha256))
  }

  /** What follows a save: retention, then the marker. */
  ghost predicate FinishStep(c: Codecs, device: string, saved: Files, cfg: Settings, retentionAt: int, doneAt: int,
                             files': Files)
  {
    exists pruned: Files, removed: Result<nat, StorageError> ::
      && RetentionStep(c, device, saved, cfg.days, cfg.minCopies, retentionAt, pruned, removed)
      && files' == pruned[MARKER := c.encodeTime(doneAt)]
  }

  method Execute(dir: DeviceDir, transport: string, fetch: Option<Artifact>, cfg: Settings, retentionAt: int,
                 doneAt: int)
    returns (out: Result<PipelineOutcome, BackupError>)
    requires fetch.Some? ==> fetch.value.fetchedAt.Valid()
    modifies dir
    ensures RunStep(dir.codecs, dir.device, transport, old(dir.files), fetch, cfg, retentionAt, doneAt, dir.files, out)
  {
    hide SaveStep, RetentionStep;
    if fetch.None? {
      return Err(Transport);
    }
    var a := fetch.value;
    var outcome := dir.SaveBackup(transport, a, cfg.compress);
    ghost var saved := dir.files;
    if outcome.Err? {
      out := Err(Store(outcome.error));
      return;
    }
    var removed := dir.ApplyRetention(cfg.days, cfg.minCopies, retentionAt);
    ghost var pruned := dir.files;
    dir.RecordSuccess(doneAt);
    assert FinishStep(dir.codecs, dir.device, saved, cfg, retentionAt, doneAt, dir.files);
    out := Ok(PipelineOutcome(outcome.value.changed, |a.content|, outcome.value.sha256));
  }

  // ----- Whole histories -----

  /** What can happen to a device's directory: a run whose fetch succeeds, one whose fetch
      fails, and a plain save cut off between writing the configuration and its sidecar. */
  datatype Event =
    | Run(a: Artifact, cfg: Settings, retentionAt: int, doneAt: int)
    | FailedFetch
    | Crash(a: Artifact)
  {
    predicate Valid() {
      FailedFetch? || a.fetchedAt.Valid()
    }
  }

  ghost predicate CrashStep(c: Codecs, device: string, files: Files, a: Artifact, files': Files)
    requires a.fetchedAt.Valid()
  {
    if !Readable(c, device, files) then files' == files
    else exists es: seq<Entry> ::
      IsListing(c, device, files, es)
      && files' == if Unchanged(es, c.DedupHash(a.content)) then files else HalfWritten(c, files, a, false)
  }

  ghost predicate EventStep(c: Codecs, device: string, transport: string, files: Files, ev: Event, files': Files)
    requires ev.Valid()
  {
    match ev
    case Run(a, cfg, retentionAt, doneAt) =>
      exists out: Result<PipelineOutcome, BackupError> ::
        RunStep(c, device, transport, files, Some(a), cfg, retentionAt, doneAt, files', out)
    case FailedFetch => files' == files
    case Crash(a) => CrashStep(c, device, files, a, files')
  }

  /** `files` is a directory that the events, from an empty one, may lead to. */
  ghost predicate Reaches(c: Codecs, device: string, transport: string, events: seq<Event>, files: Files)
    requires forall ev <- events :: ev.Valid()
  {
    if events == [] then files == map[]
    else
      var n := |events| - 1;
      exists before: Files ::
        Reaches(c, device, transport, events[..n], before) && EventStep(c, device, transport, before, events[n], files)
  }
}
