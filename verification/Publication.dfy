/** Publication of a set of catalogs: stage every file, set old files aside,
    move the new ones in, drop the backups, and roll back on any error. */
module Publication {
  import opened Wrappers
  import opened FileSystem
  import opened CatalogSafety
  import opened CatalogHistory

  datatype Cause =
    | DirectoryUnavailable | NotRegularFile | LookupFailed | StagingFailed
    | ReservationFailed | ReservationNotClosed | ReservationNotRemoved | BackupFailed
    | PublishFailed | BackupNotRemoved

  /** `restoreErrors` counts the rollback errors joined to the cause. */
  datatype Outcome = Published | Failed(cause: Cause, restoreErrors: nat)

  /** The operation each cause is blamed on. */
  ghost predicate Blames(cause: Cause, event: Event) {
    match cause
    case DirectoryUnavailable => event.operation.Prepare?
    case NotRegularFile => event.operation.Look?
    case LookupFailed => event.operation.Look?
    case StagingFailed => event.operation in {Create, Chmod, Operation.Write, Sync, Close}
    case ReservationFailed => event.operation.Create?
    case ReservationNotClosed => event.operation.Close?
    case ReservationNotRemoved => event.operation.Remove?
    case BackupFailed => event.operation.Rename?
    case PublishFailed => event.operation.Rename?
    case BackupNotRemoved => event.operation.Remove?
  }

  /** Event number `fault` is the cause: of the events added to `log` the first
      that failed, or, for a target that is no regular file, the lookup that
      found it when nothing had failed. */
  ghost predicate Caused(log: seq<Event>, history: seq<Event>, cause: Cause, fault: nat) {
    && log <= history && |log| <= fault < |history|
    && (forall i | |log| <= i < fault :: !history[i].failed)
    && history[fault].failed == (cause != NotRegularFile) && Blames(cause, history[fault])
  }

  lemma CausedLater(log: seq<Event>, middle: seq<Event>, history: seq<Event>, cause: Cause, fault: nat)
    requires log <= middle && Smooth(middle, |log|) && Caused(middle, history, cause, fault)
    ensures Caused(log, history, cause, fault)
  {
    forall i | |log| <= i < fault ensures !history[i].failed {
      assert i < |middle| ==> history[i] == middle[i];
    }
  }

  lemma CausedStays(log: seq<Event>, middle: seq<Event>, history: seq<Event>, cause: Cause, fault: nat)
    requires Caused(log, middle, cause, fault) && middle <= history
    ensures Caused(log, history, cause, fault)
  {
  }

  /** The operation gives a target back its old state, or would have. */
  ghost predicate Restoring(job: Job, event: Event) {
    match event.operation
    case Remove => event.path.Some? && event.path.value in job.targets
    case Rename(to) => to in job.targets
    case _ => false
  }

  /** An operation that restores a target has failed at event `from` or later. */
  ghost predicate RestoreFailed(job: Job, history: seq<Event>, from: nat) {
    exists i | from <= i < |history| :: history[i].failed && Restoring(job, history[i])
  }

  /** Only temporary files are operated on from event `from` on. */
  ghost predicate Tidies(history: seq<Event>, from: nat) {
    forall i | from <= i < |history| ::
      && !history[i].operation.Rename?
      && (history[i].operation.Remove? ==> history[i].path.Some? && history[i].path.value.Temporary?)
  }

  lemma TidyingRestoresNothing(job: Job, middle: seq<Event>, history: seq<Event>, from: nat)
    requires job.Valid() && middle <= history && from <= |middle|
    requires Tidies(middle, from)
    ensures RestoreFailed(job, history, from) <==> RestoreFailed(job, history, |middle|)
  {
    forall i | from <= i < |middle| ensures !Restoring(job, history[i]) {
      assert history[i] == middle[i];
    }
  }

  /** Which failures of the first loop leave a reserved name behind. */
  ghost predicate LeakCause(cause: Cause, stray: set<Path>, quiet: bool) {
    && cause != PublishFailed && cause != BackupNotRemoved && cause != NotRegularFile
    && (cause == ReservationNotRemoved ==> stray != {})
    && (cause != ReservationNotRemoved && quiet ==> stray == {})
  }

  /** What an outcome promises about the directory, whatever failed on the way. */
  ghost predicate Truthful(job: Job, outcome: Outcome, disk: Disk) {
    && job.Untouched(disk)
    && match outcome
       case Published => job.AllNew(disk) && job.Extra(disk) == {}
       case Failed(BackupNotRemoved, _) => job.AllNew(disk)
       case Failed(_, restoreErrors) => restoreErrors == 0 ==> job.AllOld(disk)
  }

  /** What remains of a failed publication whose cleaning up met no failure. */
  ghost predicate RolledBack(job: Job, outcome: Outcome, disk: Disk) {
    && outcome.Failed? && outcome.restoreErrors == 0
    && (outcome.cause != ReservationNotRemoved ==> disk == job.before)
    && (outcome.cause == ReservationNotRemoved ==> exists stray :: stray != {} && OldButFor(job, disk, stray))
  }

  lemma NothingAfter(job: Job, history: seq<Event>)
    ensures !RestoreFailed(job, history, |history|) && Smooth(history, |history|) && Tidies(history, |history|)
  {
  }

  lemma CausedWithin(log: seq<Event>, history: seq<Event>, cause: Cause, fault: nat)
    requires Caused(log, history, cause, fault)
    ensures log <= history && |log| <= fault < |history|
  {
  }

  lemma SmoothSuffix(log: seq<Event>, middle: seq<Event>, history: seq<Event>)
    requires log <= middle <= history
    ensures Smooth(history, |log|) ==> Smooth(history, |middle|)
  {
  }

  lemma SmoothRestores(job: Job, history: seq<Event>, from: nat)
    requires Smooth(history, from)
    ensures !RestoreFailed(job, history, from)
  {
  }

  lemma TidiesMore(before: seq<Event>, history: seq<Event>, from: nat)
    requires Tidies(before, from) && from <= |before| && |history| == |before| + 1 && before <= history
    requires history[|before|].operation.Remove? && history[|before|].path.Some?
    requires history[|before|].path.value.Temporary?
    ensures Tidies(history, from)
  {
    TidiesTwice(before, history, from);
  }

  lemma SmoothPrefix(middle: seq<Event>, history: seq<Event>, from: nat)
    requires middle <= history
    ensures Smooth(history, from) ==> Smooth(middle, from)
  {
    if Smooth(history, from) {
      forall i | from <= i < |middle| ensures !middle[i].failed {
        assert middle[i] == history[i];
      }
    }
  }

  /** What the events of a reservation say, once a file was created. */
  lemma ReservationEvents(log: seq<Event>, history: seq<Event>, path: Path, closed: bool, removed: bool)
    requires path.Temporary?
    requires history == log + [Event(Create, Some(path), false), Event(Close, Some(path), !closed),
                               Event(Operation.Remove, Some(path), !removed)]
    ensures closed && removed ==> Smooth(history, |log|)
    ensures !closed ==> Caused(log, history, ReservationNotClosed, |log| + 1)
    ensures !closed ==> Tidies(history, |log| + 2) && (Smooth(history, |log| + 2) ==> removed)
    ensures closed && !removed ==> Caused(log, history, ReservationNotRemoved, |log| + 2) && Tidies(history, |log| + 3)
    ensures !removed ==> FailedOn(history, |log| + 1, path) && FailedOn(history, |log| + 2, path)
  {
    assert history[|log| + 2].operation.Remove?;
    if !removed {
      FailedLast(history, |log| + 1, path);
      FailedLast(history, |log| + 2, path);
    }
  }

  lemma NoReservation(log: seq<Event>)
    ensures var history := log + [Event(Create, None, true)];
      Caused(log, history, ReservationFailed, |log|) && Tidies(history, |log| + 1)
  {
  }

  lemma TidiesTwice(middle: seq<Event>, history: seq<Event>, from: nat)
    requires middle <= history && from <= |middle| && Tidies(middle, from) && Tidies(history, |middle|)
    ensures Tidies(history, from)
  {
    forall i | from <= i < |history|
      ensures !history[i].operation.Rename?
      ensures (history[i].operation.Remove? ==> history[i].path.Some? && history[i].path.value.Temporary?)
    {
      assert i < |middle| ==> history[i] == middle[i];
    }
  }

  lemma TidiedRestoresNothing(job: Job, history: seq<Event>, from: nat)
    requires job.Valid() && Tidies(history, from)
    ensures !RestoreFailed(job, history, from)
  {
  }

  /** Tidying up after some restoring adds nothing to what restoring did. */
  lemma TidiedAfter(job: Job, log: seq<Event>, middle: seq<Event>, history: seq<Event>)
    requires job.Valid() && log <= middle <= history && Tidies(history, |middle|)
    ensures RestoreFailed(job, history, |log|) <==> RestoreFailed(job, middle, |log|)
    ensures Smooth(history, |log|) ==> Smooth(history, |middle|) && !RestoreFailed(job, history, |log|)
    ensures Smooth(middle, |log|) && Smooth(history, |middle|) ==> Smooth(history, |log|)
  {
    hide Tidies, RestoreFailed, Smooth;
    RestoreFailedGrows(job, log, middle, history);
    TidiedRestoresNothing(job, history, |middle|);
    SmoothSuffix(log, middle, history);
    if Smooth(history, |log|) {
      SmoothRestores(job, history, |log|);
    }
    if Smooth(middle, |log|) && Smooth(history, |middle|) {
      SmoothTwice(log, middle, history);
    }
  }

  lemma TidiedTargets(job: Job, disk: Disk, after: Disk, staged: seq<StagedCatalog>)
    requires SameExcept(after, disk, Temporaries(staged, 0))
    requires forall i | 0 <= i < |staged| :: staged[i].target !in Owned(staged)
    ensures job.OldFrom(disk, staged, 0) ==>
      forall i | 0 <= i < |staged| :: AsBefore(staged[i].target, after, job.before)
  {
  }

  lemma ValidJob(job: Job, disk: Disk, staged: seq<StagedCatalog>)
    requires exists stray :: job.Held(disk, staged, stray)
    ensures job.Valid()
  {
  }

  /** A step of no operation, or of one that restores a target. */
  lemma OneRestore(job: Job, before: seq<Event>, history: seq<Event>, failed: bool)
    requires (!failed && history == before) ||
      (|history| == |before| + 1 && before <= history
       && history[|before|].failed == failed && Restoring(job, history[|before|]))
    ensures RestoreFailed(job, history, |before|) <==> failed
  {
    if failed {
      assert history[|before|].failed && Restoring(job, history[|before|]);
    }
  }

  lemma RestoreFailedGrows(job: Job, log: seq<Event>, middle: seq<Event>, history: seq<Event>)
    requires log <= middle <= history
    ensures RestoreFailed(job, history, |log|) <==>
      RestoreFailed(job, middle, |log|) || RestoreFailed(job, history, |middle|)
  {
    if RestoreFailed(job, history, |log|) {
      var i :| |log| <= i < |history| && history[i].failed && Restoring(job, history[i]);
      if i < |middle| {
        assert middle[i] == history[i];
      }
    }
    if RestoreFailed(job, middle, |log|) {
      var i :| |log| <= i < |middle| && middle[i].failed && Restoring(job, middle[i]);
      assert middle[i] == history[i];
    }
  }

  ghost predicate FindsIrregular(job: Job, event: Event) {
    && event.path.Some? && event.path.value in job.targets && event.path.value in job.before
    && job.before[event.path.value].Irregular?
  }

  /** What the operations of a run, all those added to `log`, have to do with its
      outcome. Success means that none failed. Failure has its cause in the
      first that failed; if none failed after that, the directory is rolled back
      exactly; and a directory left half old and half new, like a counted
      error, takes a failed operation that restores a target. Before backups are
      deleted, every target is put back and every new name removed but where an
      operation on that very name failed. */
  ghost predicate Explained(job: Job, log: seq<Event>, history: seq<Event>, outcome: Outcome, disk: Disk, fault: nat) {
    && log <= history
    && match outcome
       case Published => Smooth(history, |log|)
       case Failed(cause, restoreErrors) =>
         && Caused(log, history, cause, fault)
         && (cause == NotRegularFile ==> FindsIrregular(job, history[fault]))
         && (restoreErrors > 0 <==> RestoreFailed(job, history, fault + 1))
         && (cause != BackupNotRemoved && Smooth(history, fault + 1) ==> RolledBack(job, outcome, disk))
         && (!job.AllOld(disk) && !job.AllNew(disk) ==> RestoreFailed(job, history, fault + 1))
         && (cause != BackupNotRemoved ==>
               Repaired(job, disk, history, fault) && LeftBut(job, disk, history, fault, {}))
  }

  lemma ExplainedLater(job: Job, log: seq<Event>, middle: seq<Event>, history: seq<Event>, outcome: Outcome, disk: Disk,
                       fault: nat)
    requires log <= middle && Smooth(middle, |log|) && Explained(job, middle, history, outcome, disk, fault)
    ensures Explained(job, log, history, outcome, disk, fault)
  {
    match outcome
    case Published => SmoothTwice(log, middle, history);
    case Failed(cause, _) => CausedLater(log, middle, history, cause, fault);
  }

  lemma TidyingMovesNothing(history: seq<Event>, from: nat)
    requires Tidies(history, from)
    ensures NothingMoved(history, from)
  {
  }

  lemma ExtraIsOwned(job: Job, disk: Disk, history: seq<Event>, staged: seq<StagedCatalog>, stray: set<Path>)
    requires job.Held(disk, staged, stray)
    ensures LeftBut(job, disk, history, |history|, stray + Backups(staged) + Temporaries(staged, 0))
  {
  }

  lemma NothingSettled(staged: seq<StagedCatalog>, disk: Disk, before: Disk, history: seq<Event>)
    ensures SettledFrom(staged, |staged|, disk, before, history, |history|)
  {
  }

  lemma RepairedTargets(job: Job, disk: Disk, staged: seq<StagedCatalog>, history: seq<Event>, from: nat)
    requires |staged| == |job.catalogs| && job.targets == Targets(job.catalogs)
    requires forall i | 0 <= i < |staged| :: staged[i].target == Target(job.catalogs[i])
    requires forall i | 0 <= i < |staged| ::
      AsBefore(staged[i].target, disk, job.before) || FailedOn(history, from, staged[i].target)
    ensures Repaired(job, disk, history, from)
  {
    hide FailedOn;
  }

  /** What withdrawing a target and putting a backup back say of the entry. */
  lemma RestoreSettles(entry: StagedCatalog, now: StagedCatalog, disk: Disk, before: Disk, log: seq<Event>,
                       middle: seq<Event>, history: seq<Event>, removed: bool, restored: bool)
    requires if entry.published then middle == log + [Event(Operation.Remove, Some(entry.target), !removed)]
      else middle == log && removed
    requires if entry.backup.None? then restored && history == middle
      else history == middle + [Event(Operation.Rename(entry.target), entry.backup, !restored)]
    requires restored && (removed || entry.backup.Some?) ==> AsBefore(entry.target, disk, before)
    requires now == if restored then entry.(backup := None) else entry
    ensures Settled(now, disk, before, history, |log|)
  {
    if !removed {
      FailedLast(middle, |log|, entry.target);
      FailedOnLater(middle, history, |log|, |log|);
    }
    if !restored {
      FailedLast(history, |log|, entry.target);
      FailedLast(history, |log|, entry.backup.value);
    }
  }

  lemma RestoreCounts(job: Job, entry: StagedCatalog, log: seq<Event>, middle: seq<Event>, history: seq<Event>,
                      removed: bool, restored: bool)
    requires entry.target in job.targets
    requires if entry.published then middle == log + [Event(Operation.Remove, Some(entry.target), !removed)]
      else middle == log && removed
    requires if entry.backup.None? then restored && history == middle
      else history == middle + [Event(Operation.Rename(entry.target), entry.backup, !restored)]
    ensures removed && restored <==> !RestoreFailed(job, history, |log|)
  {
    hide RestoreFailed;
    OneRestore(job, log, middle, !removed);
    OneRestore(job, middle, history, !restored);
    RestoreFailedGrows(job, log, middle, history);
  }

  lemma NothingSame(disk: Disk, changed: set<Path>)
    ensures SameExcept(disk, disk, changed)
  {
  }

  lemma SameTwice(disk: Disk, half: Disk, after: Disk, changed: set<Path>)
    requires SameExcept(half, disk, changed) && SameExcept(after, half, changed)
    ensures SameExcept(after, disk, changed)
  {
  }

  lemma DiscardedTargets(job: Job, disk: Disk, now: Disk, staged: seq<StagedCatalog>, stray: set<Path>)
    requires job.Held(disk, staged, stray) && job.Pending(disk, staged, |staged|)
    requires AllStaged(staged, 0) && job.targets == Targets(job.catalogs)
    requires SameExcept(now, disk, Temporaries(staged, 0))
    ensures job.AllOld(now) && (forall p | p in job.targets :: AsBefore(p, now, job.before)) && Backups(staged) == {}
  {
    hide Job.Accounted, Job.Preserved;
    StagingKeepsTargets(job, disk, staged);
    OwnedAreTemporary(job, staged);
    forall i | 0 <= i < |job.catalogs| ensures AsBefore(Target(job.catalogs[i]), now, job.before) {
      assert !Target(job.catalogs[i]).Temporary?;
    }
    TargetsOfCatalogs(job, now);
  }

  lemma DiscardedNames(job: Job, disk: Disk, now: Disk, before: seq<Event>, history: seq<Event>, scratch: set<Path>,
                       stray: set<Path>, fault: nat)
    requires before <= history && fault < |before| && job.Extra(now) <= job.Extra(disk)
    requires LeftBut(job, now, history, |before|, stray)
    requires stray == {} || stray == scratch
    requires forall p | p in scratch && p in disk :: FailedOn(before, fault + 1, p)
    ensures LeftBut(job, now, history, fault + 1, {})
  {
    hide FailedOn;
    FailedOnLater(before, history, fault + 1, fault + 1);
    FailedOnLater(history, history, |before|, fault + 1);
  }

  lemma DiscardedIs(job: Job, disk: Disk, log: seq<Event>, before: seq<Event>, history: seq<Event>, cause: Cause,
                    fault: nat)
    requires job.Valid() && before <= history && job.Untouched(disk) && job.AllOld(disk)
    requires forall p | p in job.targets :: AsBefore(p, disk, job.before)
    requires LeftBut(job, disk, history, fault + 1, {})
    requires Caused(log, before, cause, fault) && Tidies(before, fault + 1) && Tidies(history, |before|)
    requires cause == NotRegularFile ==> FindsIrregular(job, before[fault])
    requires cause != BackupNotRemoved && cause != ReservationNotRemoved
    ensures Truthful(job, Failed(cause, 0), disk)
    ensures Explained(job, log, history, Failed(cause, 0), disk, fault)
    ensures Smooth(history, fault + 1) ==> disk == job.before
  {
    hide FailedOn, Tidies, FindsIrregular, RestoreFailed;
    LeftSmooth(job, disk, history, fault + 1, {});
    if job.Extra(disk) == {} {
      NothingChanged(job, disk);
    }
    CausedStays(log, before, history, cause, fault);
    TidiesTwice(before, history, fault + 1);
    TidiedRestoresNothing(job, history, fault + 1);
    FailedOnLater(history, history, fault + 1, fault);
  }

  /** What a step on one entry touches is no target of another, and no stray file. */
  lemma OthersStay(job: Job, disk: Disk, after: Disk, staged: seq<StagedCatalog>, stray: set<Path>, index: nat)
    requires job.Valid() && job.Entries(staged) && index < |staged|
    requires stray !! Owned(staged) && forall p | p in stray :: p.Temporary?
    requires SameExcept(after, disk, Own(staged[index]) + {staged[index].target})
    ensures forall i | 0 <= i < |staged| && i != index :: AsBefore(staged[i].target, after, disk)
    ensures forall p | p in stray :: AsBefore(p, after, disk)
  {
    HomeKind(job, staged, index);
    OwnIsOwned(staged, index);
    forall i | 0 <= i < |staged| && i != index ensures AsBefore(staged[i].target, after, disk) {
      HomesDiffer(job, staged, i, index);
      HomeKind(job, staged, i);
      assert staged[i].target !in Own(staged[index]);
    }
  }

  lemma NothingReplaced(job: Job, log: seq<Disk>)
    ensures job.SafeRun(log, log, |log|)
  {
  }

  lemma ReplacedTwice(job: Job, log: seq<Disk>, middle: seq<Disk>, trace: seq<Disk>)
    requires job.SafeRun(log, middle, |log|) && job.SafeRun(middle, trace, |middle|)
    ensures job.SafeRun(log, trace, |log|)
  {
    forall k | |log| <= k < |trace| ensures job.Replaced(trace[k]) {
      assert k < |middle| ==> trace[k] == middle[k];
    }
  }

  lemma NoExtraLeft(job: Job, disk: Disk, staged: seq<StagedCatalog>)
    requires job.Extra(disk) <= Backups(staged) && forall i | 0 <= i < |staged| :: staged[i].backup.None?
    ensures job.Extra(disk) == {}
  {
    NoBackupsLeft(staged);
  }

  /** From tick `from` on a reservation is created and closed, and then cannot be removed. */
  ghost predicate RemovalFails(fates: nat -> Fate, suffixes: nat -> nat, from: nat, disk: Disk) {
    && fates(from).Succeeds? && Temporary(suffixes(from)) !in disk && fates(from + 1).Succeeds?
    && !fates(from + 2).Succeeds?
  }

  /** The operations on a new file up to and with the first that failed, number `k`. */
  ghost function FillingTo(temporary: Option<Path>, k: nat): seq<Event> {
    match k
    case 0 => [Event(Chmod, temporary, true)]
    case 1 => [Event(Chmod, temporary, false), Event(Operation.Write, temporary, true)]
    case 2 => [Event(Chmod, temporary, false), Event(Operation.Write, temporary, false), Event(Sync, temporary, true)]
    case _ =>
      [Event(Chmod, temporary, false), Event(Operation.Write, temporary, false), Event(Sync, temporary, false),
       Event(Close, temporary, true)]
  }

  /** These operations, and then the closing unless that was the one that failed. */
  ghost predicate StoppedFilling(log: seq<Event>, history: seq<Event>, temporary: Option<Path>, fault: nat) {
    && |log| <= fault <= |log| + 3
    && if fault == |log| + 3 then history == log + FillingTo(temporary, 3)
       else exists failed :: history == log + FillingTo(temporary, fault - |log|) + [Event(Close, temporary, failed)]
  }

  lemma FilledMeans(log: seq<Event>, temporary: Option<Path>)
    ensures Smooth(log + Filling(temporary), |log|) && NothingMoved(log + Filling(temporary), |log|)
  {
  }

  lemma StoppedMeans(log: seq<Event>, history: seq<Event>, temporary: Option<Path>, fault: nat)
    requires StoppedFilling(log, history, temporary, fault)
    ensures Caused(log, history, StagingFailed, fault) && Tidies(history, fault + 1)
    ensures log <= history && NothingMoved(history, |log|)
  {
  }

  lemma LookedAt(log: seq<Event>, history: seq<Event>)
    requires |history| == |log| + 1 && log <= history && history[|log|].operation.Look?
    ensures NothingMoved(history, |log|) && (!history[|log|].failed ==> Smooth(history, |log|))
  {
  }

  lemma NothingLeft(before: Disk, disk: Disk, path: Path)
    requires path !in before && path !in disk && SameExcept(disk, before, {path})
    ensures disk == before
  {
    forall p ensures p in disk <==> p in before {
      assert p != path ==> AsBefore(p, disk, before);
    }
    forall p | p in disk ensures disk[p] == before[p] {
      assert AsBefore(p, disk, before);
    }
  }

  lemma NotCreated(log: seq<Event>)
    ensures var history := log + [Event(Create, None, true)];
      && Caused(log, history, StagingFailed, |log|) && Tidies(history, |log| + 1) && NothingMoved(history, |log|)
  {
  }

  lemma JustCreated(log: seq<Event>, temporary: Option<Path>)
    ensures var history := log + [Event(Create, temporary, false)];
      Smooth(history, |log|) && NothingMoved(history, |log|)
  {
  }

  /** Removing a temporary file last, tidily. */
  lemma RemovedAfter(middle: seq<Event>, history: seq<Event>, path: Path, from: nat, log: nat)
    requires path.Temporary? && from <= |middle| && Tidies(middle, from)
    requires |history| == |middle| + 1 && middle <= history
    requires history[|middle|].operation.Remove? && history[|middle|].path == Some(path)
    ensures Tidies(history, from)
    ensures history[|middle|].failed ==> FailedOn(history, from, path)
    ensures NothingMoved(middle, log) && log <= |middle| ==> NothingMoved(history, log)
    ensures NothingMoved(history, |middle|)
  {
    TidiesMore(middle, history, from);
    if history[|middle|].failed {
      FailedLast(history, from, path);
    }
    if NothingMoved(middle, log) {
      forall i | log <= i < |history| ensures !history[i].operation.Rename? {
        assert i < |middle| ==> history[i] == middle[i];
      }
    }
  }

  class Publisher {
    const files: Directory
    var staged: seq<StagedCatalog>

    constructor (files: Directory)
      ensures this.files == files && staged == []
    {
      this.files, this.staged := files, [];
    }

    /** Writes one catalog to a temporary file beside its target. */
    method StageCatalog(target: Path, content: Bytes, existed: bool)
      returns (entry: Option<StagedCatalog>, ghost scratch: set<Path>, ghost fault: nat)
      modifies files
      ensures old(files.clock) <= files.clock && old(files.history) <= files.history
      ensures AtMostOne(scratch)
      ensures forall p | p in scratch :: p.Temporary? && p !in old(files.disk)
      ensures old(files.trace) <= files.trace
      ensures forall k | |old(files.trace)| <= k < |files.trace| :: SameExcept(files.trace[k], old(files.disk), scratch)
      ensures SameExcept(files.disk, old(files.disk), scratch)
      ensures entry.Some? ==> entry.value.temporary.Some?
      ensures entry.Some? ==> entry.value == StagedCatalog(target, entry.value.temporary, None, existed, false)
      ensures entry.Some? ==> entry.value.temporary.value in scratch
      ensures entry.Some? ==> files.disk == old(files.disk)[entry.value.temporary.value := Regular(content)]
      ensures entry.Some? ==> Smooth(files.history, |old(files.history)|)
      ensures entry.Some? ==>
        files.history ==
          old(files.history) + [Event(Create, entry.value.temporary, false)] + Filling(entry.value.temporary)
      ensures NothingMoved(files.history, |old(files.history)|)
      ensures entry.None? ==>
        Caused(old(files.history), files.history, StagingFailed, fault) && Tidies(files.history, fault + 1)
      ensures entry.None? ==>
        forall p | p in scratch && p in files.disk :: FailedOn(files.history, fault + 1, p)
      ensures entry.None? && (forall p | p in scratch :: p !in files.disk) ==> files.disk == old(files.disk)
      ensures entry.None? && files.QuietSince(old(files.clock)) ==>
        NamesRanOut(files.suffixes, files.trace, old(files.clock))
    {
      entry, scratch, fault := None, {}, |files.history|;
      hide Caused, Tidies, Smooth, NothingMoved, Filling, FailedOn;
      ghost var log := files.history;
      var temporary := files.CreateTemp();
      if temporary.None? {
        NotCreated(log);
        assert files.disk in files.trace;
        return;
      }
      var path := temporary.value;
      scratch := {path};
      ghost var middle := files.history;
      JustCreated(log, temporary);
      var good;
      good, fault := FillOrRemove(path, content);
      if good {
        SmoothTwice(log, middle, files.history);
        entry := Some(StagedCatalog(target, temporary, None, existed, false));
      } else {
        CausedLater(log, middle, files.history, StagingFailed, fault);
        if path !in files.disk {
          NothingLeft(old(files.disk), files.disk, path);
        }
      }
      NothingMovedTwice(log, middle, files.history);
    }

    /** Fills a new file, or removes it again. */
    method FillOrRemove(path: Path, content: Bytes) returns (good: bool, ghost fault: nat)
      requires path in files.disk && path.Temporary?
      modifies files
      ensures old(files.clock) <= files.clock && old(files.trace) <= files.trace && old(files.history) <= files.history
      ensures forall k | |old(files.trace)| <= k < |files.trace| :: SameExcept(files.trace[k], old(files.disk), {path})
      ensures SameExcept(files.disk, old(files.disk), {path})
      ensures good ==> files.disk == old(files.disk)[path := Regular(content)]
      ensures good ==> Smooth(files.history, |old(files.history)|)
      ensures good ==> files.history == old(files.history) + Filling(Some(path))
      ensures NothingMoved(files.history, |old(files.history)|)
      ensures !good ==>
        Caused(old(files.history), files.history, StagingFailed, fault) && Tidies(files.history, fault + 1)
      ensures !good && path in files.disk ==> FailedOn(files.history, fault + 1, path)
      ensures files.QuietSince(old(files.clock)) ==> good
    {
      hide Caused, Tidies, Smooth, NothingMoved, Filling, FailedOn;
      good, fault := Fill(path, content);
      if !good {
        ghost var filled := files.history;
        CausedWithin(old(files.history), filled, StagingFailed, fault);
        var _ := files.Remove(path);
        CausedStays(old(files.history), filled, files.history, StagingFailed, fault);
        RemovedAfter(filled, files.history, path, fault + 1, |old(files.history)|);
      }
    }

    /** Sets permissions, writes, syncs and closes a new file; after an operation
        that fails it is only closed. */
    method Fill(path: Path, content: Bytes) returns (good: bool, ghost fault: nat)
      requires path in files.disk
      modifies files
      ensures old(files.history) <= files.history
      ensures good ==> Smooth(files.history, |old(files.history)|)
      ensures good ==> files.history == old(files.history) + Filling(Some(path))
      ensures NothingMoved(files.history, |old(files.history)|)
      ensures !good ==> StoppedFilling(old(files.history), files.history, Some(path), fault)
      ensures !good ==>
        Caused(old(files.history), files.history, StagingFailed, fault) && Tidies(files.history, fault + 1)
      ensures old(files.clock) <= files.clock && old(files.trace) <= files.trace
      ensures forall k | |old(files.trace)| <= k < |files.trace| :: SameExcept(files.trace[k], old(files.disk), {path})
      ensures path in files.disk && SameExcept(files.disk, old(files.disk), {path})
      ensures good ==> files.disk == old(files.disk)[path := Regular(content)]
      ensures files.QuietSince(old(files.clock)) ==> good
    {
      hide Caused, Tidies, Smooth, NothingMoved;
      good, fault := WriteOut(path, content);
      var closed := files.Settle(Close, Some(path));
      if good && closed {
        assert files.history == old(files.history) + Filling(Some(path));
        FilledMeans(old(files.history), Some(path));
      } else {
        StoppedMeans(old(files.history), files.history, Some(path), fault);
      }
      good := good && closed;
    }

    /** All of that but the closing; `fault` is the next operation if none failed. */
    method WriteOut(path: Path, content: Bytes) returns (good: bool, ghost fault: nat)
      requires path in files.disk
      modifies files
      ensures old(files.clock) <= files.clock && old(files.trace) <= files.trace
      ensures forall k | |old(files.trace)| <= k < |files.trace| :: SameExcept(files.trace[k], old(files.disk), {path})
      ensures path in files.disk && SameExcept(files.disk, old(files.disk), {path})
      ensures good ==> files.disk == old(files.disk)[path := Regular(content)]
      ensures good ==> fault == |old(files.history)| + 3
      ensures good ==> files.history == old(files.history) + Filling(Some(path))[..3]
      ensures !good ==> |old(files.history)| <= fault < |old(files.history)| + 3
      ensures !good ==> files.history == old(files.history) + FillingTo(Some(path), fault - |old(files.history)|)
      ensures files.QuietSince(old(files.clock)) ==> good
    {
      fault := |files.history|;
      good := files.Settle(Chmod, Some(path));
      if !good {
        return;
      }
      var count, written := files.Write(path, content);
      good, fault := written && count == |content|, fault + 1;
      if !good {
        return;
      }
      assert content[..|content|] == content;
      good := files.Settle(Sync, Some(path));
      fault := if good then fault + 2 else fault + 1;
    }

    /** Draws a free name for a backup by creating and removing an empty file.
        `stray` is the file left behind when it could not be removed. */
    method ReserveBackup()
      returns (path: Result<Path, Cause>, ghost scratch: set<Path>, ghost stray: set<Path>, ghost fault: nat)
      modifies files
      ensures old(files.clock) <= files.clock && old(files.history) <= files.history
      ensures forall p | p in scratch :: p.Temporary? && p !in old(files.disk)
      ensures old(files.trace) <= files.trace
      ensures forall k | |old(files.trace)| <= k < |files.trace| :: SameExcept(files.trace[k], old(files.disk), scratch)
      ensures stray <= scratch && AtMostOne(stray)
      ensures files.disk == old(files.disk) + map p | p in stray :: Regular("")
      ensures path.Ok? ==> stray == {} && path.value.Temporary? && path.value !in files.disk
      ensures path.Err? ==> path.error in {ReservationFailed, ReservationNotClosed, ReservationNotRemoved}
      ensures path == Err(ReservationNotRemoved) ==> stray != {}
      ensures forall p | p in stray :: FailedOn(files.history, fault, p)
      ensures path.Ok? ==> Smooth(files.history, |old(files.history)|)
      ensures path.Ok? ==> files.history == old(files.history) + ReservingAt(path.value)
      ensures path.Err? ==>
        Caused(old(files.history), files.history, path.error, fault) && Tidies(files.history, fault + 1)
      ensures path.Err? && path.error != ReservationNotRemoved && Smooth(files.history, fault + 1) ==> stray == {}
      ensures path.Err? && files.QuietSince(old(files.clock)) ==>
        NamesRanOut(files.suffixes, files.trace, old(files.clock))
      ensures RemovalFails(files.fates, files.suffixes, old(files.clock), old(files.disk)) ==>
        path == Err(ReservationNotRemoved) && files.clock == old(files.clock) + 3 && fault + 1 == |files.history|
    {
      hide Smooth, Tidies, Caused, FailedOn;
      scratch, stray, fault := {}, {}, |files.history|;
      var backup := files.CreateTemp();
      if backup.None? {
        path := Err(ReservationFailed);
        NoReservation(old(files.history));
        assert files.disk in files.trace;
        return;
      }
      scratch := {backup.value};
      var closed := files.Settle(Close, backup);
      fault := if closed then fault + 2 else fault + 1;
      var removal := files.Remove(backup.value);
      ReservationEvents(old(files.history), files.history, backup.value, closed, removal.Removed?);
      if !removal.Removed? {
        stray := scratch;
      }
      if !closed {
        path := Err(ReservationNotClosed);
      } else if !removal.Removed? {
        path := Err(ReservationNotRemoved);
      } else {
        path := Ok(backup.value);
      }
    }

    /** First loop: move every existing target to a backup name. */
    method SetAside(ghost job: Job) returns (cause: Option<Cause>, ghost stray: set<Path>, ghost fault: nat)
      requires job.Held(files.disk, staged, {}) && job.Ready(files.disk, staged)
      requires job.Pending(files.disk, staged, |staged|)
      requires AllStaged(staged, 0)
      modifies this`staged, files
      ensures old(files.clock) <= files.clock && job.KeptSince(old(files.trace), files.trace)
      ensures old(files.history) <= files.history
      ensures job.Held(files.disk, staged, stray) && job.Ready(files.disk, staged)
      ensures job.Pending(files.disk, staged, |staged|)
      ensures |staged| == |old(staged)| && Leaked(stray, files.disk, job, staged)
      ensures cause.None? ==> stray == {} && AllStaged(staged, |staged|) && Smooth(files.history, |old(files.history)|)
      ensures cause.None? ==> CatalogHistory.SetAside(old(staged), staged)
      ensures cause.None? ==> files.history == old(files.history) + Each(AsideOf, staged)
      ensures cause.Some? ==>
        Caused(old(files.history), files.history, cause.value, fault) && Tidies(files.history, fault + 1)
      ensures cause.Some? ==> LeakCause(cause.value, stray, Smooth(files.history, fault + 1))
      ensures forall p | p in stray :: FailedOn(files.history, fault, p)
      ensures cause.Some? && files.QuietSince(old(files.clock)) ==>
        NamesRanOut(files.suffixes, files.trace, old(files.clock))
      ensures
        && RemovalFails(files.fates, files.suffixes, old(files.clock), old(files.disk))
        && old(staged) != [] && old(staged)[0].existed ==>
        cause == Some(ReservationNotRemoved) && files.clock == old(files.clock) + 3 && fault + 1 == |files.history|
    {
      hide FailedOn, AsideUpTo, CatalogHistory.SetAside, Each, AsideOf;
      NothingAside(staged);
      hide Job.Held, Job.Ready, Job.Pending, Job.KeptSince, Caused, Tidies, LeakCause, Smooth, RemovalFails, Leaked;
      HeldTargets(job, files.disk, staged, {});
      cause, stray, fault := None, {}, 0;
      SmoothNothing(files.history);
      KeptNothing(job, files.trace);
      for index := 0 to |staged|
        invariant |staged| == |old(staged)| <= |job.catalogs| && cause.None? && stray == {}
        invariant old(files.clock) <= files.clock && job.KeptSince(old(files.trace), files.trace)
        invariant old(files.history) <= files.history && Smooth(files.history, |old(files.history)|)
        invariant job.Held(files.disk, staged, {}) && job.Ready(files.disk, staged)
        invariant job.Pending(files.disk, staged, |staged|)
        invariant AllStaged(staged, index)
        invariant AsideUpTo(old(staged), staged, index)
        invariant files.history == old(files.history) + Each(AsideOf, staged[..index])
        invariant index == 0 ==>
          files.disk == old(files.disk) && files.clock == old(files.clock) && staged == old(staged)
        invariant index > 0 && old(staged)[0].existed ==>
          !RemovalFails(files.fates, files.suffixes, old(files.clock), old(files.disk))
      {
        ghost var entries := staged;
        if staged[index].existed {
          ghost var middle, before := files.trace, files.history;
          cause, stray, fault := BackUp(job, index);
          KeptTwice(job, old(files.trace), middle, files.trace);
          if cause.Some? {
            CausedLater(old(files.history), before, files.history, cause.value, fault);
            return;
          }
          SmoothTwice(old(files.history), before, files.history);
        }
        AsideStep(old(staged), entries, staged, index);
        assert entries[..index] == staged[..index];
        EachMore(AsideOf, staged, index);
      }
      assert staged[..|staged|] == staged;
      AsideAll(old(staged), staged);
      NothingLeaked(job, files.disk, staged);
    }

    /** One turn of the first loop, for a target that exists. */
    method BackUp(ghost job: Job, index: nat) returns (cause: Option<Cause>, ghost stray: set<Path>, ghost fault: nat)
      requires job.Held(files.disk, staged, {}) && job.Ready(files.disk, staged)
      requires job.Pending(files.disk, staged, |staged|)
      requires index < |staged| && staged[index].existed && AllStaged(staged, index)
      modifies this`staged, files
      ensures old(files.clock) <= files.clock && job.KeptSince(old(files.trace), files.trace)
      ensures old(files.history) <= files.history
      ensures job.Held(files.disk, staged, stray) && job.Ready(files.disk, staged)
      ensures job.Pending(files.disk, staged, |staged|)
      ensures |staged| == |old(staged)| && Leaked(stray, files.disk, job, staged)
      ensures cause.None? ==> stray == {} && AllStaged(staged, index + 1) && Smooth(files.history, |old(files.history)|)
      ensures cause.Some? ==>
        Caused(old(files.history), files.history, cause.value, fault) && Tidies(files.history, fault + 1)
      ensures cause.None? ==>
        staged[index].backup.Some? && staged[index].backup.value.Temporary?
        && staged == old(staged)[index := old(staged)[index].(backup := staged[index].backup)]
      ensures cause.None? ==> files.history == old(files.history) + AsideOf(staged[index])
      ensures cause.Some? ==> LeakCause(cause.value, stray, Smooth(files.history, fault + 1))
      ensures forall p | p in stray :: FailedOn(files.history, fault, p)
      ensures cause.Some? && files.QuietSince(old(files.clock)) ==>
        NamesRanOut(files.suffixes, files.trace, old(files.clock))
      ensures RemovalFails(files.fates, files.suffixes, old(files.clock), old(files.disk)) ==>
        cause == Some(ReservationNotRemoved) && files.clock == old(files.clock) + 3 && fault + 1 == |files.history|
    {
      hide Job.Held, Job.Ready, Job.Pending, Job.KeptSince, RemovalFails, FailedOn, Smooth, Caused, Leaked, Exhausted;
      ghost var disk := files.disk;
      var path;
      ghost var scratch;
      path, scratch, stray, fault := ReserveBackup();
      ScratchTrace(job, disk, staged, scratch, old(files.trace), files.trace);
      LeakedOnly(job, disk, files.disk, staged, stray);
      if path.Err? {
        cause := Some(path.error);
        return;
      }
      assert files.disk == disk;
      ghost var reserved, log := files.history, files.trace;
      cause := MoveAside(job, index, path.value);
      fault := |reserved|;
      KeptTwice(job, old(files.trace), log, files.trace);
      NothingLeaked(job, files.disk, staged);
      if cause.None? {
        SmoothTwice(old(files.history), reserved, files.history);
      } else {
        CausedLater(old(files.history), reserved, files.history, BackupFailed, fault);
      }
    }

    method MoveAside(ghost job: Job, index: nat, backup: Path) returns (cause: Option<Cause>)
      requires job.Held(files.disk, staged, {}) && job.Ready(files.disk, staged)
      requires job.Pending(files.disk, staged, |staged|)
      requires index < |staged| && staged[index].existed && AllStaged(staged, index)
      requires backup.Temporary? && backup !in files.disk
      modifies this`staged, files
      ensures old(files.clock) <= files.clock && job.KeptSince(old(files.trace), files.trace)
      ensures job.Held(files.disk, staged, {}) && job.Ready(files.disk, staged)
      ensures job.Pending(files.disk, staged, |staged|)
      ensures |staged| == |old(staged)|
      ensures cause.None? ==> staged == old(staged)[index := old(staged)[index].(backup := Some(backup))]
      ensures cause.None? ==>
        files.history == old(files.history) + [Event(Operation.Rename(backup), Some(old(staged)[index].target), false)]
      ensures |files.history| == |old(files.history)| + 1 && old(files.history) <= files.history
      ensures cause.None? ==> AllStaged(staged, index + 1) && Smooth(files.history, |old(files.history)|)
      ensures cause.Some? ==> cause.value == BackupFailed && !files.QuietSince(old(files.clock))
      ensures cause.Some? ==> Caused(old(files.history), files.history, BackupFailed, |old(files.history)|)
    {
      hide Job.Preserved, Job.Accounted;
      var moved := files.Rename(staged[index].target, backup);
      if !moved {
        HeldPreserves(job, files.disk, staged, {});
        return Some(BackupFailed);
      }
      BackedUp(job, old(files.disk), files.disk, staged, index, backup);
      AllStagedStep(staged, index, backup);
      staged := staged[index := staged[index].(backup := Some(backup))];
      cause := None;
    }

    /** Second loop: move every staged file onto its target. */
    method MoveIn(ghost job: Job) returns (cause: Option<Cause>)
      requires job.Held(files.disk, staged, {}) && job.Ready(files.disk, staged)
      requires job.Pending(files.disk, staged, |staged|) && MovedIn(staged, 0)
      modifies this`staged, files
      ensures old(files.clock) <= files.clock && job.KeptSince(old(files.trace), files.trace)
      ensures job.Held(files.disk, staged, {}) && job.Pending(files.disk, staged, |staged|)
      ensures |staged| == |old(staged)|
      ensures old(files.history) <= files.history
      ensures cause.None? ==> MovedIn(staged, |staged|) && Smooth(files.history, |old(files.history)|)
      ensures cause.None? ==> files.history == old(files.history) + Each(MovingOf, old(staged))
      ensures cause.None? ==> MovedTo(old(staged), staged, |staged|)
      ensures cause.Some? ==> cause.value == PublishFailed && !files.QuietSince(old(files.clock))
      ensures cause.Some? ==>
        |files.history| > 0 && Caused(old(files.history), files.history, PublishFailed, |files.history| - 1)
    {
      hide Job.Preserved, Job.Secured, Job.Accounted, Job.KeptSince, Smooth, MovedIn, Caused, Job.Ready;
      hide Each, MovingOf, MovedTo, Job.Held, Job.Pending;
      HeldTargets(job, files.disk, staged, {});
      NothingMovedIn(staged);
      EachNothing(MovingOf, staged);
      KeptNothing(job, files.trace);
      SmoothNothing(files.history);
      for index := 0 to |staged|
        invariant |staged| == |old(staged)| <= |job.catalogs|
        invariant old(files.clock) <= files.clock && job.KeptSince(old(files.trace), files.trace)
        invariant old(files.history) <= files.history && Smooth(files.history, |old(files.history)|)
        invariant job.Held(files.disk, staged, {}) && job.Ready(files.disk, staged)
        invariant job.Pending(files.disk, staged, |staged|) && MovedIn(staged, index)
        invariant MovedTo(old(staged), staged, index)
        invariant files.history == old(files.history) + Each(MovingOf, old(staged)[..index])
      {
        EachMore(MovingOf, old(staged), index);
        ghost var log, middle, entries := files.trace, files.history, staged;
        var moved := MoveOne(job, index);
        KeptTwice(job, old(files.trace), log, files.trace);
        if !moved {
          CausedLater(old(files.history), middle, files.history, PublishFailed, |files.history| - 1);
          return Some(PublishFailed);
        }
        MovedStep(old(staged), entries, index);
        SmoothTwice(old(files.history), middle, files.history);
      }
      assert old(staged)[..|staged|] == old(staged);
      cause := None;
    }

    /** One turn of the loop. */
    method MoveOne(ghost job: Job, index: nat) returns (moved: bool)
      requires index < |staged| && job.Held(files.disk, staged, {}) && job.Ready(files.disk, staged)
      requires job.Pending(files.disk, staged, |staged|) && MovedIn(staged, index)
      modifies this`staged, files
      ensures old(files.clock) <= files.clock && job.KeptSince(old(files.trace), files.trace)
      ensures job.Held(files.disk, staged, {}) && job.Pending(files.disk, staged, |staged|)
      ensures |staged| == |old(staged)| && old(files.history) <= files.history
      ensures moved ==> job.Ready(files.disk, staged) && MovedIn(staged, index + 1)
      ensures moved ==> Smooth(files.history, |old(files.history)|)
      ensures moved ==> files.history == old(files.history) + MovingOf(old(staged)[index])
      ensures moved ==> staged == old(staged)[index := old(staged)[index].(temporary := None, published := true)]
      ensures !moved ==> !files.QuietSince(old(files.clock)) && |files.history| > 0
      ensures !moved ==> Caused(old(files.history), files.history, PublishFailed, |files.history| - 1)
    {
      hide Job.Preserved, Job.Secured, Job.Accounted;
      ghost var disk := files.disk;
      moved := files.Rename(staged[index].temporary.value, staged[index].target);
      if moved {
        PublishedOne(job, disk, files.disk, staged, index);
        MovedInStep(staged, index);
        staged := staged[index := staged[index].(temporary := None, published := true)];
      } else {
        HeldPreserves(job, files.disk, staged, {});
      }
    }

    /** Third loop: with every target new, remove the backups. */
    method DropBackups(ghost job: Job) returns (dropped: bool)
      requires job.Valid() && job.Replaced(files.disk) && job.Extra(files.disk) <= Backups(staged)
      requires forall p | p in Backups(staged) :: p.Temporary? && p !in job.before
      requires job.Entries(staged) && BackupsPresent(files.disk, staged)
      modifies this`staged, files
      ensures old(files.clock) <= files.clock
      ensures files.QuietSince(old(files.clock)) ==> dropped
      ensures old(files.history) <= files.history
      ensures dropped ==> Smooth(files.history, |old(files.history)|)
      ensures dropped ==> files.history == old(files.history) + Each(DroppingOf, old(staged))
      ensures !dropped ==>
        |files.history| > 0 && Caused(old(files.history), files.history, BackupNotRemoved, |files.history| - 1)
      ensures job.SafeRun(old(files.trace), files.trace, |old(files.trace)|)
      ensures job.Replaced(files.disk)
      ensures dropped ==> job.Extra(files.disk) == {}
    {
      hide Job.Replaced, Job.Entries, Job.SafeRun, Job.Extra, Smooth, Caused, BackupsPresent, Each;
      hide DroppingOf, DroppedTo;
      NothingDropped(staged);
      SmoothNothing(files.history);
      NothingReplaced(job, files.trace);
      for index := 0 to |staged|
        invariant |staged| == |old(staged)|
        invariant old(files.clock) <= files.clock
        invariant old(files.history) <= files.history && Smooth(files.history, |old(files.history)|)
        invariant files.history == old(files.history) + Each(DroppingOf, old(staged)[..index])
        invariant DroppedTo(old(staged), staged, index)
        invariant job.SafeRun(old(files.trace), files.trace, |old(files.trace)|)
        invariant job.Replaced(files.disk) && job.Extra(files.disk) <= Backups(staged)
        invariant forall p | p in Backups(staged) :: p.Temporary? && p !in job.before
        invariant forall i | 0 <= i < index :: staged[i].backup.None?
        invariant job.Entries(staged) && BackupsPresent(files.disk, staged)
      {
        DroppedStep(old(staged), staged, index);
        EachMore(DroppingOf, old(staged), index);
        if staged[index].backup.Some? {
          ghost var log, middle := files.trace, files.history;
          var one := DropOne(job, index);
          ReplacedTwice(job, old(files.trace), log, files.trace);
          if !one {
            CausedLater(old(files.history), middle, files.history, BackupNotRemoved, |files.history| - 1);
            return false;
          }
          SmoothTwice(old(files.history), middle, files.history);
        }
      }
      assert old(staged)[..|staged|] == old(staged);
      NoExtraLeft(job, files.disk, staged);
      dropped := true;
    }

    method DropOne(ghost job: Job, index: nat) returns (dropped: bool)
      requires job.Valid() && job.Replaced(files.disk) && job.Extra(files.disk) <= Backups(staged)
      requires forall p | p in Backups(staged) :: p.Temporary? && p !in job.before
      requires job.Entries(staged) && BackupsPresent(files.disk, staged)
      requires index < |staged| && staged[index].backup.Some?
      modifies this`staged, files
      ensures old(files.clock) <= files.clock && (files.QuietSince(old(files.clock)) ==> dropped)
      ensures old(files.history) <= files.history
      ensures dropped ==> Smooth(files.history, |old(files.history)|)
      ensures dropped ==>
        files.history == old(files.history) + [Event(Operation.Remove, old(staged)[index].backup, false)]
      ensures !dropped ==>
        |files.history| > 0 && Caused(old(files.history), files.history, BackupNotRemoved, |files.history| - 1)
      ensures job.SafeRun(old(files.trace), files.trace, |old(files.trace)|)
      ensures job.Replaced(files.disk)
      ensures dropped ==> staged == old(staged)[index := old(staged)[index].(backup := None)]
      ensures dropped ==> job.Extra(files.disk) <= Backups(staged) <= Backups(old(staged))
      ensures dropped ==> job.Entries(staged) && BackupsPresent(files.disk, staged)
    {
      hide Job.Entries, Job.Extra;
      ghost var disk := files.disk;
      var removal := files.Remove(staged[index].backup.value);
      dropped := removal.Removed?;
      if dropped {
        BackupDropped(job, disk, files.disk, staged, index);
        staged := staged[index := staged[index].(backup := None)];
      }
    }

    /** Rolls back and states what that achieves. */
    method Abandon(ghost job: Job, ghost stray: set<Path>, cause: Cause) returns (outcome: Outcome)
      requires job.Held(files.disk, staged, stray) && job.Pending(files.disk, staged, |staged|)
      requires |staged| == |job.catalogs| && job.targets == Targets(job.catalogs)
      requires Leaked(stray, files.disk, job, staged)
      requires cause != BackupNotRemoved && (cause == ReservationNotRemoved ==> stray != {})
      modifies this`staged, files
      ensures outcome.Failed? && outcome.cause == cause
      ensures old(files.clock) <= files.clock && job.KeptSince(old(files.trace), files.trace)
      ensures Truthful(job, outcome, files.disk)
      ensures old(files.history) <= files.history
      ensures files.QuietSince(old(files.clock)) ==> Smooth(files.history, |old(files.history)|)
      ensures outcome.restoreErrors > 0 <==> RestoreFailed(job, files.history, |old(files.history)|)
      ensures Repaired(job, files.disk, files.history, |old(files.history)|)
      ensures LeftBut(job, files.disk, files.history, |old(files.history)|, stray)
      ensures Smooth(files.history, |old(files.history)|) && (cause != ReservationNotRemoved ==> stray == {}) ==>
        RolledBack(job, outcome, files.disk)
    {
      hide Job.Preserved, Job.Secured, Job.Accounted, Job.Held, Job.Pending, Job.Extra, Owned, Restoring;
      ghost var disk, entries := files.disk, staged;
      HeldTargets(job, disk, staged, stray);
      outcome := Rollback(job, stray, cause);
      forall i | 0 <= i < |job.catalogs| ensures staged[i].target == Target(job.catalogs[i]) {
        assert entries[i].target == Target(job.catalogs[i]);
      }
      RepairedTargets(job, files.disk, staged, files.history, |old(files.history)|);
      LeftSmooth(job, files.disk, files.history, |old(files.history)|, stray);
      if outcome.restoreErrors == 0 {
        forall i | 0 <= i < |job.catalogs| ensures AsBefore(Target(job.catalogs[i]), files.disk, job.before) {
          assert entries[i].target == Target(job.catalogs[i]);
          assert staged[i].target == entries[i].target;
        }
        if job.Extra(files.disk) <= stray {
          OnlyTheLeak(job, files.disk, stray);
          assert stray == {} ==> files.disk == job.before;
        }
      }
    }

    /** Second and third loop: with every old file set aside, replace the
        targets and drop the backups, or roll back. */
    method Replace(ghost job: Job) returns (outcome: Outcome, ghost cut: nat, ghost fault: nat)
      requires job.Held(files.disk, staged, {}) && job.Ready(files.disk, staged)
      requires job.Pending(files.disk, staged, |staged|)
      requires |staged| == |job.catalogs| && job.targets == Targets(job.catalogs)
      requires MovedIn(staged, 0)
      modifies this`staged, files
      ensures |old(files.trace)| <= cut && job.SafeRun(old(files.trace), files.trace, cut)
      ensures old(files.clock) <= files.clock
      ensures Truthful(job, outcome, files.disk)
      ensures Explained(job, old(files.history), files.history, outcome, files.disk, fault)
      ensures files.QuietSince(old(files.clock)) ==> outcome.Published?
      ensures outcome.Published? ==>
        files.history == old(files.history) + Each(MovingOf, old(staged)) + Each(DroppingOf, old(staged))
    {
      hide Job.Held, Job.Ready, Job.Pending, Job.Preserved, Job.AllOld, Job.AllNew, RolledBack, RestoreFailed;
      hide Each, MovedTo;
      var cause := MoveIn(job);
      ghost var middle, moved := files.trace, files.history;
      if cause.Some? {
        fault := |moved| - 1;
        outcome := Abandon(job, {}, cause.value);
        CausedStays(old(files.history), moved, files.history, PublishFailed, fault);
        KeptTwice(job, old(files.trace), middle, files.trace);
        cut := |files.trace|;
      } else {
        AllMovedIn(job, files.disk, staged);
        DroppingForgets(old(staged), staged);
        var dropped := DropBackups(job);
        KeptThenReplaced(job, old(files.trace), middle, files.trace);
        cut := |middle|;
        fault := if dropped then 0 else |files.history| - 1;
        outcome := if dropped then Published else Failed(BackupNotRemoved, 0);
        if dropped {
          SmoothTwice(old(files.history), moved, files.history);
        } else {
          CausedLater(old(files.history), moved, files.history, BackupNotRemoved, fault);
          NothingAfter(job, files.history);
        }
      }
    }

    /** Publishes the staged set, or rolls it back. */
    method PublishCatalogSet(ghost job: Job) returns (outcome: Outcome, ghost cut: nat, ghost fault: nat)
      requires job.Held(files.disk, staged, {}) && job.Ready(files.disk, staged)
      requires job.Pending(files.disk, staged, |staged|)
      requires |staged| == |job.catalogs| && job.targets == Targets(job.catalogs)
      requires AllStaged(staged, 0)
      modifies this`staged, files
      ensures |old(files.trace)| <= cut && job.SafeRun(old(files.trace), files.trace, cut)
      ensures old(files.clock) <= files.clock
      ensures Truthful(job, outcome, files.disk)
      ensures Explained(job, old(files.history), files.history, outcome, files.disk, fault)
      ensures outcome.Published? ==> Replacing(old(staged), old(files.history), files.history)
      ensures outcome.Failed? && files.QuietSince(old(files.clock)) ==>
        NamesRanOut(files.suffixes, files.trace, old(files.clock))
      ensures
        && old(staged) != [] && old(staged)[0].existed
        && RemovalFails(files.fates, files.suffixes, old(files.clock), old(files.disk))
        && files.QuietSince(old(files.clock) + 3)
        ==> outcome == Failed(ReservationNotRemoved, 0) && RolledBack(job, outcome, files.disk)
    {
      hide Job.Held, Job.Ready, Job.Pending, Job.Preserved, Job.AllOld, Job.AllNew, RestoreFailed, Tidies, Caused;
      hide RemovalFails, Each, CatalogHistory.SetAside;
      var cause;
      ghost var stray;
      cause, stray, fault := SetAside(job);
      ghost var middle, before := files.trace, files.history;
      if cause.Some? {
        CausedWithin(old(files.history), before, cause.value, fault);
        outcome := Abandon(job, stray, cause.value);
        CausedStays(old(files.history), before, files.history, cause.value, fault);
        ValidJob(job, old(files.disk), old(staged));
        TidyingRestoresNothing(job, before, files.history, fault + 1);
        KeptTwice(job, old(files.trace), middle, files.trace);
        cut := |files.trace|;
        if NamesRanOut(files.suffixes, middle, old(files.clock)) {
          RanOutBefore(files.suffixes, middle, files.trace, old(files.clock), old(files.clock));
        }
      } else {
        ghost var entries := staged;
        outcome, cut, fault := Replace(job);
        assert CatalogHistory.SetAside(old(staged), entries);
        ExplainedLater(job, old(files.history), before, files.history, outcome, files.disk, fault);
        KeptThenSafe(job, old(files.trace), middle, files.trace, cut);
      }
    }

    /** Removes what is still staged; failures are ignored. */
    method CleanUp(ghost job: Job, ghost stray: set<Path>)
      requires job.Held(files.disk, staged, stray)
      modifies files
      ensures old(files.clock) <= files.clock && job.KeptSince(old(files.trace), files.trace)
      ensures SameExcept(files.disk, old(files.disk), Temporaries(staged, 0))
      ensures job.Untouched(files.disk)
      ensures old(files.history) <= files.history && Tidies(files.history, |old(files.history)|)
      ensures files.QuietSince(old(files.clock)) ==> Smooth(files.history, |old(files.history)|)
      ensures LeftBut(job, files.disk, files.history, |old(files.history)|, stray + Backups(staged))
      ensures job.Extra(files.disk) <= job.Extra(old(files.disk))
    {
      hide Job.Preserved, Job.Secured, Job.Entries, Job.Valid, Job.Untouched;
      ghost var start := files.clock;
      ExtraIsOwned(job, files.disk, files.history, staged, stray);
      hide LeftBut;
      for index := 0 to |staged|
        invariant start <= files.clock && job.KeptSince(old(files.trace), files.trace)
        invariant SameExcept(files.disk, old(files.disk), Temporaries(staged, 0))
        invariant job.Held(files.disk, staged, stray)
        invariant old(files.history) <= files.history && Tidies(files.history, |old(files.history)|)
        invariant job.Valid() && job.Entries(staged)
        invariant files.QuietSince(start) ==> Smooth(files.history, |old(files.history)|)
        invariant LeftBut(job, files.disk, files.history, |old(files.history)|,
                          stray + Backups(staged) + Temporaries(staged, index))
        invariant job.Extra(files.disk) <= job.Extra(old(files.disk))
      {
        TemporariesStep(staged, index);
        if staged[index].temporary.Some? {
          ghost var disk := files.disk;
          assert staged[index].temporary.value in Temporaries(staged, 0);
          ghost var before := files.history;
          OwnedAreTemporary(job, staged);
          var _ := files.Remove(staged[index].temporary.value);
          TidiesMore(before, files.history, |old(files.history)|);
          TemporaryRemoved(job, disk, files.disk, staged, stray, index);
          assert stray + Backups(staged) + Temporaries(staged, index) ==
            stray + Backups(staged) + Temporaries(staged, index + 1) + {staged[index].temporary.value};
          LeftStep(job, disk, files.disk, before, files.history, |old(files.history)|,
                   stray + Backups(staged) + Temporaries(staged, index + 1), staged[index].temporary.value);
        }
      }
    }

    /** Undoes publication from the last entry to the first, going on after errors. */
    method Rollback(ghost job: Job, ghost stray: set<Path>, cause: Cause)
      returns (outcome: Outcome)
      requires job.Held(files.disk, staged, stray) && job.Pending(files.disk, staged, |staged|)
      requires stray !! Owned(staged) && forall p | p in stray :: p.Temporary?
      modifies this`staged, files
      ensures outcome.Failed? && outcome.cause == cause
      ensures old(files.clock) <= files.clock && job.KeptSince(old(files.trace), files.trace)
      ensures job.Untouched(files.disk)
      ensures outcome.restoreErrors == 0 ==>
        forall i | 0 <= i < |staged| :: AsBefore(staged[i].target, files.disk, job.before)
      ensures |staged| == |old(staged)| && forall i | 0 <= i < |staged| :: staged[i].target == old(staged[i].target)
      ensures forall p | p in stray :: AsBefore(p, files.disk, old(files.disk))
      ensures old(files.history) <= files.history
      ensures files.QuietSince(old(files.clock)) ==> Smooth(files.history, |old(files.history)|)
      ensures outcome.restoreErrors > 0 <==> RestoreFailed(job, files.history, |old(files.history)|)
      ensures LeftBut(job, files.disk, files.history, |old(files.history)|, stray)
      ensures forall i | 0 <= i < |staged| ::
        AsBefore(staged[i].target, files.disk, job.before)
        || FailedOn(files.history, |old(files.history)|, staged[i].target)
    {
      hide Job.Held, Job.Pending, Job.Preserved, Job.KeptSince, RestoreFailed, Tidies, Smooth, Job.Extra;
      hide Job.Untouched, Owned;
      NothingSettled(staged, files.disk, job.before, files.history);
      hide SettledFrom, Settled, LeftBut, FailedOn;
      HeldTargets(job, files.disk, staged, stray);
      NothingAfter(job, files.history);
      KeptNothing(job, files.trace);
      var errors: nat := 0;
      var index := |staged|;
      while index > 0
        invariant 0 <= index <= |staged| == |old(staged)| <= |job.catalogs|
        invariant old(files.clock) <= files.clock && job.KeptSince(old(files.trace), files.trace)
        invariant job.Held(files.disk, staged, stray) && job.Pending(files.disk, staged, index)
        invariant Owned(staged) <= Owned(old(staged))
        invariant forall i | 0 <= i < |staged| :: staged[i].target == old(staged[i].target)
        invariant forall p | p in stray :: AsBefore(p, files.disk, old(files.disk))
        invariant errors == 0 ==> job.OldFrom(files.disk, staged, index)
        invariant SettledFrom(staged, index, files.disk, job.before, files.history, |old(files.history)|)
        invariant old(files.history) <= files.history
        invariant files.QuietSince(old(files.clock)) ==> Smooth(files.history, |old(files.history)|)
        invariant errors > 0 <==> RestoreFailed(job, files.history, |old(files.history)|)
      {
        index := index - 1;
        ghost var middle, log, disk, entries := files.history, files.trace, files.disk, staged;
        var removed, restored := Restore(job, stray, index);
        KeptTwice(job, old(files.trace), log, files.trace);
        SettledStep(entries, staged, index, disk, files.disk, job.before, middle, files.history, |old(files.history)|);
        RestoreFailedGrows(job, old(files.history), middle, files.history);
        if files.QuietSince(old(files.clock)) {
          SmoothTwice(old(files.history), middle, files.history);
        }
        if !removed {
          errors := errors + 1;
        }
        if !restored {
          errors := errors + 1;
        }
      }
      TidyUp(job, stray, errors, old(files.history), old(files.trace));
      outcome := Failed(cause, errors);
    }

    /** The end of a rollback with `errors` that began at `log`: cleaning up
        neither restores nor spoils anything. */
    method TidyUp(ghost job: Job, ghost stray: set<Path>, ghost errors: nat, ghost log: seq<Event>,
                  ghost trace: seq<Disk>)
      requires job.Held(files.disk, staged, stray) && job.Pending(files.disk, staged, 0)
      requires stray !! Owned(staged) && forall p | p in stray :: p.Temporary?
      requires errors == 0 ==> job.OldFrom(files.disk, staged, 0)
      requires log <= files.history && (errors > 0 <==> RestoreFailed(job, files.history, |log|))
      requires SettledFrom(staged, 0, files.disk, job.before, files.history, |log|)
      requires job.KeptSince(trace, files.trace)
      modifies files
      ensures old(files.clock) <= files.clock && job.KeptSince(trace, files.trace)
      ensures job.Untouched(files.disk)
      ensures errors == 0 ==> forall i | 0 <= i < |staged| :: AsBefore(staged[i].target, files.disk, job.before)
      ensures forall p | p in stray :: AsBefore(p, files.disk, old(files.disk))
      ensures old(files.history) <= files.history
      ensures files.QuietSince(old(files.clock)) && Smooth(old(files.history), |log|) ==> Smooth(files.history, |log|)
      ensures errors > 0 <==> RestoreFailed(job, files.history, |log|)
      ensures LeftBut(job, files.disk, files.history, |log|, stray)
      ensures forall i | 0 <= i < |staged| ::
        AsBefore(staged[i].target, files.disk, job.before) || FailedOn(files.history, |log|, staged[i].target)
    {
      hide Job.Secured, Job.Accounted, Job.Preserved, Job.KeptSince, RestoreFailed, Tidies, Smooth;
      hide SettledFrom, LeftBut, FailedOn;
      OwnedAreTemporary(job, staged);
      ValidJob(job, files.disk, staged);
      CleanUp(job, stray);
      SettledThenCleaned(job, staged, old(files.disk), files.disk, old(files.history), files.history, |log|, stray);
      KeptTwice(job, trace, old(files.trace), files.trace);
      TidiedAfter(job, log, old(files.history), files.history);
      TidiedTargets(job, old(files.disk), files.disk, staged);
    }

    /** One turn of the rollback loop. */
    method Restore(ghost job: Job, ghost stray: set<Path>, index: nat)
      returns (removed: bool, restored: bool)
      requires index < |staged| && job.Held(files.disk, staged, stray) && job.Pending(files.disk, staged, index + 1)
      requires stray !! Owned(staged) && forall p | p in stray :: p.Temporary?
      modifies this`staged, files
      ensures |staged| == |old(staged)| && Owned(staged) <= Owned(old(staged))
      ensures old(files.clock) <= files.clock && job.KeptSince(old(files.trace), files.trace)
      ensures job.Held(files.disk, staged, stray) && job.Pending(files.disk, staged, index)
      ensures forall i | 0 <= i < |staged| :: staged[i].target == old(staged[i].target)
      ensures forall p | p in stray :: AsBefore(p, files.disk, old(files.disk))
      ensures removed && restored && job.OldFrom(old(files.disk), old(staged), index + 1) ==>
        job.OldFrom(files.disk, staged, index)
      ensures old(files.history) <= files.history
      ensures Settled(staged[index], files.disk, job.before, files.history, |old(files.history)|)
      ensures forall i | index < i < |staged| ::
        staged[i] == old(staged)[i] && AsBefore(staged[i].target, files.disk, old(files.disk))
      ensures removed && restored <==> !RestoreFailed(job, files.history, |old(files.history)|)
      ensures files.QuietSince(old(files.clock)) ==> Smooth(files.history, |old(files.history)|)
    {
      hide Job.Preserved, Job.Secured, Job.Accounted, RestoreFailed, Job.KeptSince, Job.OldFrom, Smooth, Job.Extra;
      hide Settled, SameExcept;
      KeptNothing(job, files.trace);
      HomeKind(job, staged, index);
      OwnIsOwned(staged, index);
      SmoothNothing(files.history);
      ghost var entries, disk, changed := staged, files.disk, Own(staged[index]) + {staged[index].target};
      NothingSame(disk, changed);
      removed := true;
      if staged[index].published {
        removed := Withdraw(job, stray, index);
      }
      ghost var middle, log, half := files.history, files.trace, files.disk;
      restored := PutBack(job, stray, index, removed);
      KeptTwice(job, old(files.trace), log, files.trace);
      SameTwice(disk, half, files.disk, changed);
      RestoreSettles(entries[index], staged[index], files.disk, job.before, old(files.history), middle, files.history,
                     removed, restored);
      RestoreCounts(job, entries[index], old(files.history), middle, files.history, removed, restored);
      OthersStay(job, disk, files.disk, entries, stray, index);
      if files.QuietSince(old(files.clock)) {
        SmoothTwice(old(files.history), middle, files.history);
      }
    }

    method Withdraw(ghost job: Job, ghost stray: set<Path>, index: nat) returns (removed: bool)
      requires index < |staged| && job.Held(files.disk, staged, stray) && job.Pending(files.disk, staged, index + 1)
      requires staged[index].published
      modifies files
      ensures old(files.clock) <= files.clock && job.KeptSince(old(files.trace), files.trace)
      ensures job.Held(files.disk, staged, stray) && job.Pending(files.disk, staged, index)
      ensures SameExcept(files.disk, old(files.disk), Own(staged[index]) + {staged[index].target})
      ensures removed ==> staged[index].target !in files.disk
      ensures staged[index].target in files.disk ==> files.disk[staged[index].target].Regular?
      ensures job.OldFrom(old(files.disk), staged, index + 1) ==> job.OldFrom(files.disk, staged, index + 1)
      ensures files.history == old(files.history) + [Event(Operation.Remove, Some(staged[index].target), !removed)]
      ensures files.QuietSince(old(files.clock)) ==> removed && Smooth(files.history, |old(files.history)|)
    {
      var removal := files.Remove(staged[index].target);
      removed := !removal.NotRemoved?;
      TargetRemoved(job, old(files.disk), files.disk, staged, stray, index);
    }

    method PutBack(ghost job: Job, ghost stray: set<Path>, index: nat, ghost removed: bool) returns (restored: bool)
      requires index < |staged| && job.Held(files.disk, staged, stray) && job.Pending(files.disk, staged, index)
      requires if staged[index].published then removed ==> staged[index].target !in files.disk
        else if staged[index].backup.Some? then staged[index].target !in files.disk
        else AsBefore(staged[index].target, files.disk, job.before)
      requires staged[index].published && staged[index].existed ==> staged[index].backup.Some?
      requires staged[index].backup.Some? && staged[index].target in files.disk ==>
        files.disk[staged[index].target].Regular?
      modifies this`staged, files
      ensures |staged| == |old(staged)| && Owned(staged) <= Owned(old(staged))
      ensures old(files.clock) <= files.clock && job.KeptSince(old(files.trace), files.trace)
      ensures job.Held(files.disk, staged, stray) && job.Pending(files.disk, staged, index)
      ensures forall i | 0 <= i < |staged| :: staged[i].target == old(staged[i].target)
      ensures SameExcept(files.disk, old(files.disk), Own(old(staged)[index]) + {old(staged)[index].target})
      ensures removed && restored && job.OldFrom(old(files.disk), old(staged), index + 1) ==>
        job.OldFrom(files.disk, staged, index)
      ensures restored && (removed || old(staged)[index].backup.Some?) ==>
        AsBefore(staged[index].target, files.disk, job.before)
      ensures staged == if restored then old(staged)[index := old(staged)[index].(backup := None)] else old(staged)
      ensures files.QuietSince(old(files.clock)) ==> restored && Smooth(files.history, |old(files.history)|)
      ensures old(staged)[index].backup.None? ==> restored && files.history == old(files.history)
      ensures old(staged)[index].backup.Some? ==>
        files.history == old(files.history)
          + [Event(Operation.Rename(old(staged)[index].target), old(staged)[index].backup, !restored)]
    {
      hide Job.Preserved, Job.Accounted;
      restored := true;
      if staged[index].backup.Some? {
        restored := files.Rename(staged[index].backup.value, staged[index].target);
        if restored {
          BackupRestored(job, old(files.disk), files.disk, staged, stray, index);
          OwnedShrinks(staged, index, staged[index].(backup := None));
          staged := staged[index := staged[index].(backup := None)];
        } else {
          HeldPreserves(job, files.disk, staged, stray);
        }
      }
    }

    /** Gives up while staging: nothing has been published yet. */
    method Discard(ghost job: Job, ghost scratch: set<Path>, cause: Cause, ghost log: seq<Event>, ghost fault: nat)
      returns (outcome: Outcome)
      requires job.Held(files.disk, staged, scratch) && job.Pending(files.disk, staged, |staged|)
      requires AllStaged(staged, 0) && job.targets == Targets(job.catalogs)
      requires Caused(log, files.history, cause, fault) && Tidies(files.history, fault + 1)
      requires cause == NotRegularFile ==> FindsIrregular(job, files.history[fault])
      requires forall p | p in scratch && p in files.disk :: FailedOn(files.history, fault + 1, p)
      requires (forall p | p in scratch :: p !in files.disk) ==> job.Held(files.disk, staged, {})
      requires cause != BackupNotRemoved && cause != ReservationNotRemoved
      modifies files
      ensures outcome == Failed(cause, 0)
      ensures old(files.clock) <= files.clock && job.KeptSince(old(files.trace), files.trace)
      ensures Truthful(job, outcome, files.disk)
      ensures Explained(job, log, files.history, outcome, files.disk, fault)
      ensures old(files.history) <= files.history && NothingMoved(files.history, |old(files.history)|)
      ensures files.QuietSince(old(files.clock)) && fault + 1 == |old(files.history)| ==> files.disk == job.before
    {
      hide Job.Preserved, Job.Accounted, Job.KeptSince, Explained, Truthful, Tidies, Caused, NothingMoved, FailedOn;
      hide LeftBut;
      outcome := Failed(cause, 0);
      ghost var disk, before := files.disk, files.history;
      ghost var stray := if forall p | p in scratch :: p !in files.disk then {} else scratch;
      CleanUp(job, stray);
      DiscardedTargets(job, disk, files.disk, staged, stray);
      CausedWithin(log, before, cause, fault);
      assert stray + Backups(staged) == stray;
      DiscardedNames(job, disk, files.disk, before, files.history, scratch, stray, fault);
      DiscardedIs(job, files.disk, log, before, files.history, cause, fault);
      TidyingMovesNothing(files.history, |before|);
    }

    /** Looks at one target and stages its new content, or gives up. */
    method StageOne(ghost job: Job, catalog: Catalog) returns (abandoned: Option<Outcome>, ghost fault: nat)
      requires job.Held(files.disk, staged, {}) && job.Ready(files.disk, staged)
      requires job.Pending(files.disk, staged, |staged|)
      requires |staged| < |job.catalogs| && catalog == job.catalogs[|staged|]
      requires AllStaged(staged, 0) && job.targets == Targets(job.catalogs)
      modifies this`staged, files
      ensures old(files.clock) <= files.clock && job.KeptSince(old(files.trace), files.trace)
      ensures old(files.history) <= files.history
      ensures abandoned.None? ==>
        && Smooth(files.history, |old(files.history)|)
        && job.Held(files.disk, staged, {}) && job.Ready(files.disk, staged)
        && job.Pending(files.disk, staged, |staged|)
        && |staged| == |old(staged)| + 1 && AllStaged(staged, 0)
      ensures abandoned.None? ==>
        && staged[..|old(staged)|] == old(staged)
        && files.history == old(files.history) + StagingOf(staged[|old(staged)|])
      ensures NothingMoved(files.history, |old(files.history)|)
      ensures abandoned.Some? ==> abandoned.value.Failed? && abandoned.value.restoreErrors == 0
      ensures abandoned.Some? && files.QuietSince(old(files.clock)) ==>
        || NamesRanOut(files.suffixes, files.trace, old(files.clock))
        || (abandoned.value.cause == NotRegularFile && files.disk == job.before
            && Target(catalog) in job.before && job.before[Target(catalog)].Irregular?)
      ensures abandoned.Some? ==> abandoned.value.cause != BackupNotRemoved
      ensures abandoned.Some? ==> Truthful(job, abandoned.value, files.disk)
      ensures abandoned.Some? ==> Explained(job, old(files.history), files.history, abandoned.value, files.disk, fault)
    {
      hide Job.Preserved, Job.Secured, Job.Accounted, Job.Pending, Truthful, Smooth, NothingMoved, Filling;
      HeldPreserves(job, files.disk, staged, {});
      NextTarget(job, files.disk, staged);
      var target := Artifact(catalog.name);
      var lookup := files.Lstat(target);
      fault := |old(files.history)|;
      LookedAt(old(files.history), files.history);
      ghost var log, looked := files.trace, files.history;
      if lookup == Found(Irregular) || lookup.Broken? {
        var outcome := Discard(job, {}, if lookup.Broken? then LookupFailed else NotRegularFile, old(files.history),
                               fault);
        abandoned := Some(outcome);
      } else {
        abandoned, fault := StageNext(job, catalog, lookup.Found?);
        if abandoned.Some? {
          ExplainedLater(job, old(files.history), looked, files.history, abandoned.value, files.disk, fault);
        } else {
          SmoothTwice(old(files.history), looked, files.history);
        }
      }
      NothingMovedTwice(old(files.history), looked, files.history);
      KeptTwice(job, old(files.trace), log, files.trace);
    }

    /** Stages the next catalog, whose target is a regular file or not there. */
    method StageNext(ghost job: Job, catalog: Catalog, existed: bool)
      returns (abandoned: Option<Outcome>, ghost fault: nat)
      requires job.Held(files.disk, staged, {}) && job.Ready(files.disk, staged)
      requires job.Pending(files.disk, staged, |staged|)
      requires |staged| < |job.catalogs| && catalog == job.catalogs[|staged|]
      requires AllStaged(staged, 0) && job.targets == Targets(job.catalogs)
      requires existed <==> Target(catalog) in files.disk
      requires existed ==> files.disk[Target(catalog)].Regular?
      modifies this`staged, files
      ensures old(files.clock) <= files.clock && job.KeptSince(old(files.trace), files.trace)
      ensures old(files.history) <= files.history && NothingMoved(files.history, |old(files.history)|)
      ensures abandoned.None? ==>
        && Smooth(files.history, |old(files.history)|)
        && job.Held(files.disk, staged, {}) && job.Ready(files.disk, staged)
        && job.Pending(files.disk, staged, |staged|) && AllStaged(staged, 0)
      ensures abandoned.None? ==>
        && |staged| == |old(staged)| + 1 && staged[..|old(staged)|] == old(staged)
        && staged[|old(staged)|].target == Target(catalog)
        && files.history == old(files.history) + [Event(Create, staged[|old(staged)|].temporary, false)]
             + Filling(staged[|old(staged)|].temporary)
      ensures abandoned.Some? ==> abandoned.value == Failed(StagingFailed, 0)
      ensures abandoned.Some? && files.QuietSince(old(files.clock)) ==>
        NamesRanOut(files.suffixes, files.trace, old(files.clock))
      ensures abandoned.Some? ==> Truthful(job, abandoned.value, files.disk)
      ensures abandoned.Some? ==> Explained(job, old(files.history), files.history, abandoned.value, files.disk, fault)
    {
      hide Job.Preserved, Job.Secured, Job.Accounted, Job.Pending, Truthful, Explained, Smooth, NothingMoved, Filling;
      ghost var disk := files.disk;
      NextTarget(job, disk, staged);
      var entry;
      ghost var scratch;
      entry, scratch, fault := StageCatalog(Target(catalog), catalog.content, existed);
      ScratchTrace(job, disk, staged, scratch, old(files.trace), files.trace);
      ghost var log, made := files.trace, files.history;
      if entry.None? {
        ScratchOnly(job, disk, files.disk, staged, scratch);
        var outcome := Discard(job, scratch, StagingFailed, old(files.history), fault);
        NothingMovedTwice(old(files.history), made, files.history);
        KeptTwice(job, old(files.trace), log, files.trace);
        abandoned := Some(outcome);
        return;
      }
      StagedOne(job, disk, files.disk, staged, entry.value);
      staged := staged + [entry.value];
      abandoned := None;
    }

    /** Looks at every target and stages every catalog, in order, or gives up. */
    method StageAll(ghost job: Job, catalogs: seq<Catalog>) returns (abandoned: Option<Outcome>, ghost fault: nat)
      requires catalogs == job.catalogs && staged == [] && job.targets == Targets(job.catalogs)
      requires job.Held(files.disk, staged, {}) && job.Ready(files.disk, staged)
      requires job.Pending(files.disk, staged, |staged|)
      modifies this`staged, files
      ensures old(files.clock) <= files.clock && job.KeptSince(old(files.trace), files.trace)
      ensures old(files.history) <= files.history && NothingMoved(files.history, |old(files.history)|)
      ensures abandoned.None? ==>
        && job.Held(files.disk, staged, {}) && job.Ready(files.disk, staged)
        && |staged| == |job.catalogs| && job.Pending(files.disk, staged, |staged|) && AllStaged(staged, 0)
      ensures abandoned.None? ==> Smooth(files.history, |old(files.history)|)
      ensures abandoned.None? ==> files.history == old(files.history) + Each(StagingOf, staged)
      ensures abandoned.Some? ==> abandoned.value.Failed? && abandoned.value.restoreErrors == 0
      ensures abandoned.Some? ==> Truthful(job, abandoned.value, files.disk)
      ensures abandoned.Some? ==> Explained(job, old(files.history), files.history, abandoned.value, files.disk, fault)
      ensures abandoned.Some? ==> abandoned.value.cause != BackupNotRemoved
      ensures abandoned.Some? && files.QuietSince(old(files.clock)) ==>
        || NamesRanOut(files.suffixes, files.trace, old(files.clock))
        || (abandoned.value.cause == NotRegularFile && Barred(job) && files.disk == job.before)
    {
      hide Job.Preserved, Job.Secured, Job.Accounted, Job.KeptSince, Smooth, Each, StagingOf, Barred, NothingMoved;
      hide Explained, Truthful;
      KeptNothing(job, files.trace);
      SmoothNothing(files.history);
      NothingMovedYet(files.history);
      EachNothing(StagingOf, staged);
      abandoned, fault := None, 0;
      for index := 0 to |catalogs|
        invariant abandoned.None?
        invariant job.KeptSince(old(files.trace), files.trace) && old(files.clock) <= files.clock
        invariant job.Held(files.disk, staged, {}) && job.Ready(files.disk, staged)
        invariant |staged| == index && job.Pending(files.disk, staged, |staged|) && AllStaged(staged, 0)
        invariant old(files.history) <= files.history && Smooth(files.history, |old(files.history)|)
        invariant NothingMoved(files.history, |old(files.history)|)
        invariant files.history == old(files.history) + Each(StagingOf, staged)
      {
        ghost var before, entries, log := files.history, staged, files.trace;
        abandoned, fault := StageOne(job, catalogs[index]);
        NothingMovedTwice(old(files.history), before, files.history);
        KeptTwice(job, old(files.trace), log, files.trace);
        if abandoned.Some? {
          ExplainedLater(job, old(files.history), before, files.history, abandoned.value, files.disk, fault);
          BarredBy(job, catalogs[index]);
          return;
        }
        SmoothTwice(old(files.history), before, files.history);
        EachOne(StagingOf, entries, staged[index]);
        assert entries + [staged[index]] == staged;
      }
    }

    /** Stages every catalog and publishes the set. */
    method PublishAggregateArtifacts(catalogs: seq<Catalog>)
      returns (outcome: Outcome, ghost job: Job, ghost cut: nat, ghost fault: nat)
      requires DistinctNames(catalogs) && staged == []
      modifies this`staged, files
      ensures job == Job(old(files.disk), catalogs, Targets(catalogs))
      ensures |old(files.trace)| <= cut && job.SafeRun(old(files.trace), files.trace, cut)
      ensures Truthful(job, outcome, files.disk)
      ensures Explained(job, old(files.history), files.history, outcome, files.disk, fault)
      ensures outcome.Published? ==> Installed(catalogs, old(files.disk), files.disk)
      ensures outcome.Published? ==> Orderly(job, old(files.history), files.history)
      ensures Barred(job) ==> outcome.Failed? && outcome.restoreErrors == 0 && job.AllOld(files.disk)
      ensures Barred(job) ==> NothingMoved(files.history, |old(files.history)|)
      ensures Barred(job) && files.QuietSince(old(files.clock)) ==>
        || NamesRanOut(files.suffixes, files.trace, old(files.clock))
        || (outcome == Failed(NotRegularFile, 0) && files.disk == job.before)
      ensures !Barred(job) && outcome.Failed? && files.QuietSince(old(files.clock)) ==>
        NamesRanOut(files.suffixes, files.trace, old(files.clock))
    {
      hide Job.Preserved, Job.Held, Job.Ready, Job.Pending, Each, Replacing, Orderly, Barred, NothingMoved, StagingOf;
      hide Smooth, Job.KeptSince, Job.SafeRun, Explained, Truthful, AllStaged;
      job := Job(files.disk, catalogs, Targets(catalogs));
      NothingStaged(job);
      var made := files.Settle(Prepare, None);
      fault := |old(files.history)|;
      PreparedOnly(job, old(files.history), old(files.trace), made);
      if !made {
        cut := |files.trace|;
        outcome := Failed(DirectoryUnavailable, 0);
        return;
      }
      ghost var asked, looked := files.history, files.trace;
      var abandoned;
      abandoned, fault := StageAll(job, catalogs);
      NothingMovedTwice(old(files.history), asked, files.history);
      KeptTwice(job, old(files.trace), looked, files.trace);
      if abandoned.Some? {
        outcome, cut := abandoned.value, |files.trace|;
        KeptIsSafe(job, old(files.trace), files.trace);
        ExplainedLater(job, old(files.history), asked, files.history, outcome, files.disk, fault);
        TruthfulKeepsOld(job, outcome, files.disk);
        return;
      }
      ghost var middle, before, entries, disk := files.trace, files.history, staged, files.disk;
      StagedIsNotBarred(job, disk, entries);
      SmoothTwice(old(files.history), asked, files.history);
      outcome, cut, fault := PublishCatalogSet(job);
      ExplainedLater(job, old(files.history), before, files.history, outcome, files.disk, fault);
      KeptThenSafe(job, old(files.trace), middle, files.trace, cut);
      if outcome.Published? {
        StagedHaveTemporaries(entries);
        PublishedIsInstalled(job, outcome, files.disk);
        StagedThenReplaced(job, entries, old(files.history), before, files.history, disk);
      }
    }
  }

  /** Every catalog is a regular file of its content, and every other name is as before. */
  ghost predicate Installed(catalogs: seq<Catalog>, before: Disk, disk: Disk) {
    && (forall c | c in catalogs :: Artifact(c.name) in disk && disk[Artifact(c.name)] == Regular(c.content))
    && forall p: Path ::
         (forall c | c in catalogs :: p != Artifact(c.name)) ==>
           (p in disk <==> p in before) && (p in before ==> disk[p] == before[p])
  }

  lemma PublishedIsInstalled(job: Job, outcome: Outcome, disk: Disk)
    requires Truthful(job, outcome, disk) && outcome.Published? && job.targets == Targets(job.catalogs)
    ensures Installed(job.catalogs, job.before, disk)
  {
    forall c | c in job.catalogs ensures Artifact(c.name) in disk && disk[Artifact(c.name)] == Regular(c.content) {
      var i :| 0 <= i < |job.catalogs| && job.catalogs[i] == c;
      assert Target(job.catalogs[i]) in disk;
    }
    forall p: Path | forall c | c in job.catalogs :: p != Artifact(c.name)
      ensures (p in disk <==> p in job.before) && (p in job.before ==> disk[p] == job.before[p])
    {
      assert p !in job.targets;
      assert p !in job.Extra(disk);
    }
  }

  lemma StagedHaveTemporaries(staged: seq<StagedCatalog>)
    requires AllStaged(staged, 0)
    ensures forall i | 0 <= i < |staged| :: staged[i].temporary.Some?
  {
  }

  lemma KeptIsSafe(job: Job, log: seq<Disk>, trace: seq<Disk>)
    requires job.KeptSince(log, trace)
    ensures job.SafeRun(log, trace, |trace|)
  {
  }

  lemma TruthfulKeepsOld(job: Job, outcome: Outcome, disk: Disk)
    requires Truthful(job, outcome, disk) && outcome.Failed? && outcome.restoreErrors == 0
    requires outcome.cause != BackupNotRemoved
    ensures job.AllOld(disk)
  {
  }

  /** Making the directory, which is all there is to the history if it fails. */
  lemma PreparedOnly(job: Job, log: seq<Event>, trace: seq<Disk>, made: bool)
    requires job.Held(job.before, [], {})
    ensures var history := log + [Event(Prepare, None, !made)];
      && NothingMoved(history, |log|) && (made ==> Smooth(history, |log|))
      && (!made ==> Explained(job, log, history, Failed(DirectoryUnavailable, 0), job.before, |log|))
    ensures Truthful(job, Failed(DirectoryUnavailable, 0), job.before) && job.AllOld(job.before)
    ensures job.KeptSince(trace, trace + [job.before])
    ensures job.SafeRun(trace, trace + [job.before], |trace| + 1)
  {
    hide Job.Preserved;
    HeldPreserves(job, job.before, [], {});
    NothingAfter(job, log + [Event(Prepare, None, !made)]);
  }

  lemma NothingMovedYet(history: seq<Event>)
    ensures NothingMoved(history, |history|)
  {
  }

  lemma BarredBy(job: Job, catalog: Catalog)
    requires catalog in job.catalogs && job.targets == Targets(job.catalogs)
    ensures Target(catalog) in job.before && job.before[Target(catalog)].Irregular? ==> Barred(job)
  {
    var i :| 0 <= i < |job.catalogs| && job.catalogs[i] == catalog;
    assert Target(catalog) in job.targets;
  }

  /** A schedule that leaves a file behind: with one old catalog staged, creating
      and closing the reservation succeed, removing it fails, and nothing else does. */
  method LeakedReservation() returns (outcome: Outcome, disk: Disk)
    ensures outcome == Failed(ReservationNotRemoved, 0)
    ensures exists stray: Path :: stray.Temporary? && disk == map[Artifact("a") := Regular("old"), stray := Regular("")]
  {
    hide Job.Held, Job.Ready, Job.Pending, Truthful, Explained, Job.SafeRun, OldButFor;
    var before := map[Artifact("a") := Regular("old")];
    var files := new Directory(k => if k == 2 then Fails else Succeeds, k => k + 1,
                               before[Temporary(0) := Regular("new")]);
    var publisher := new Publisher(files);
    publisher.staged := [StagedCatalog(Artifact("a"), Some(Temporary(0)), None, true, false)];
    ghost var job := Job(before, [Catalog("a", "new")], {Artifact("a")});
    OneStaged(job, files.disk, publisher.staged);
    ghost var cut, fault;
    outcome, cut, fault := publisher.PublishCatalogSet(job);
    disk := files.disk;
    OneStray(job, outcome, disk);
  }

  lemma OneStray(job: Job, outcome: Outcome, disk: Disk)
    requires job.before == map[Artifact("a") := Regular("old")]
    requires RolledBack(job, outcome, disk) && outcome.cause == ReservationNotRemoved
    ensures exists stray: Path :: stray.Temporary? && disk == map[Artifact("a") := Regular("old"), stray := Regular("")]
  {
    var strays :| strays != {} && OldButFor(job, disk, strays);
    var stray :| stray in strays;
    assert strays == {stray};
    assert disk == map[Artifact("a") := Regular("old"), stray := Regular("")];
  }

  lemma OneStaged(job: Job, disk: Disk, staged: seq<StagedCatalog>)
    requires job == Job(map[Artifact("a") := Regular("old")], [Catalog("a", "new")], {Artifact("a")})
    requires disk == job.before[Temporary(0) := Regular("new")]
    requires staged == [StagedCatalog(Artifact("a"), Some(Temporary(0)), None, true, false)]
    ensures job.Held(disk, staged, {}) && job.Ready(disk, staged) && job.Pending(disk, staged, |staged|)
    ensures job.targets == Targets(job.catalogs) && AllStaged(staged, 0)
  {
    assert Own(staged[0]) == {Temporary(0)};
    assert Target(job.catalogs[0]) == Artifact("a");
    assert Temporary(0) in Temporaries(staged, 0);
  }
}
