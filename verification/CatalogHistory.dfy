/** The operations of a publication that goes through, in their order. */
module CatalogHistory {
  import opened Wrappers
  import opened FileSystem
  import opened CatalogSafety

  /** A temporary file is created, made readable, written, synced and closed. */
  ghost function Filling(temporary: Option<Path>): seq<Event> {
    [Event(Chmod, temporary, false), Event(Operation.Write, temporary, false), Event(Sync, temporary, false),
     Event(Close, temporary, false)]
  }

  /** One catalog is looked at and staged. */
  ghost function StagingOf(entry: StagedCatalog): seq<Event> {
    [Event(Look, Some(entry.target), false), Event(Create, entry.temporary, false)] + Filling(entry.temporary)
  }

  /** A name is reserved for an old file, and the file moved there. */
  ghost function AsideOf(entry: StagedCatalog): seq<Event> {
    if entry.backup.None? then []
    else
      ReservingAt(entry.backup.value) + [Event(Operation.Rename(entry.backup.value), Some(entry.target), false)]
  }

  ghost function ReservingAt(backup: Path): seq<Event> {
    [Event(Create, Some(backup), false), Event(Close, Some(backup), false),
     Event(Operation.Remove, Some(backup), false)]
  }

  ghost function MovingOf(entry: StagedCatalog): seq<Event> {
    [Event(Operation.Rename(entry.target), entry.temporary, false)]
  }

  ghost function DroppingOf(entry: StagedCatalog): seq<Event> {
    if entry.backup.None? then [] else [Event(Operation.Remove, entry.backup, false)]
  }

  /** The events of all entries, one after the other. */
  ghost function Each(events: StagedCatalog -> seq<Event>, entries: seq<StagedCatalog>): seq<Event> {
    if entries == [] then []
    else Each(events, entries[..|entries| - 1]) + events(entries[|entries| - 1])
  }

  lemma EachMore(events: StagedCatalog -> seq<Event>, entries: seq<StagedCatalog>, k: nat)
    requires k < |entries|
    ensures Each(events, entries[..k + 1]) == Each(events, entries[..k]) + events(entries[k])
  {
    assert entries[..k + 1][..k] == entries[..k];
  }

  lemma EachNothing(events: StagedCatalog -> seq<Event>, entries: seq<StagedCatalog>)
    ensures Each(events, entries[..0]) == []
  {
  }

  lemma EachOne(events: StagedCatalog -> seq<Event>, entries: seq<StagedCatalog>, entry: StagedCatalog)
    ensures Each(events, entries + [entry]) == Each(events, entries) + events(entry)
  {
    assert (entries + [entry])[..|entries|] == entries;
  }

  lemma {:induction false} EachAgree(events: StagedCatalog -> seq<Event>, a: seq<StagedCatalog>, b: seq<StagedCatalog>)
    requires |a| == |b| && forall i | 0 <= i < |a| :: events(a[i]) == events(b[i])
    ensures Each(events, a) == Each(events, b)
  {
    if a != [] {
      EachAgree(events, a[..|a| - 1], b[..|b| - 1]);
    }
  }

  /** No file has been moved from event `from` on. */
  ghost predicate NothingMoved(history: seq<Event>, from: nat) {
    forall i | from <= i < |history| :: !history[i].operation.Rename?
  }

  lemma NothingMovedTwice(log: seq<Event>, middle: seq<Event>, history: seq<Event>)
    requires log <= middle <= history && NothingMoved(middle, |log|) && NothingMoved(history, |middle|)
    ensures NothingMoved(history, |log|)
  {
    forall i | |log| <= i < |history| ensures !history[i].operation.Rename? {
      assert i < |middle| ==> history[i] == middle[i];
    }
  }

  // ----- what an error leaves undone

  /** From event `from` on an operation on this path has failed, or a move to it. */
  ghost predicate FailedOn(history: seq<Event>, from: nat, path: Path) {
    exists i | from <= i < |history| && history[i].failed ::
      history[i].path == Some(path) || history[i].operation == Operation.Rename(path)
  }

  lemma FailedOnLater(middle: seq<Event>, history: seq<Event>, from: nat, earlier: nat)
    requires middle <= history && earlier <= from
    ensures forall path | FailedOn(middle, from, path) :: FailedOn(history, earlier, path)
  {
    forall path | FailedOn(middle, from, path) ensures FailedOn(history, earlier, path) {
      var i :| from <= i < |middle| && middle[i].failed
        && (middle[i].path == Some(path) || middle[i].operation == Operation.Rename(path));
      assert history[i] == middle[i];
    }
  }

  lemma FailedOnNothing(history: seq<Event>, from: nat)
    requires Smooth(history, from)
    ensures forall path :: !FailedOn(history, from, path)
  {
  }

  lemma FailedLast(history: seq<Event>, from: nat, path: Path)
    requires |history| > 0 && from <= |history| - 1 && history[|history| - 1].failed
    requires history[|history| - 1].path == Some(path) || history[|history| - 1].operation == Operation.Rename(path)
    ensures FailedOn(history, from, path)
  {
  }

  /** No name is left over, but for these and for names on which an operation failed. */
  ghost predicate LeftBut(job: Job, disk: Disk, history: seq<Event>, from: nat, allowed: set<Path>) {
    forall p | p in job.Extra(disk) :: p in allowed || FailedOn(history, from, p)
  }

  /** Every target is as before, but where an operation on it failed. */
  ghost predicate Repaired(job: Job, disk: Disk, history: seq<Event>, from: nat) {
    forall p | p in job.targets :: AsBefore(p, disk, job.before) || FailedOn(history, from, p)
  }

  /** A rolled back entry: its target is as before and its backup gone, but where
      an operation failed. */
  ghost predicate Settled(entry: StagedCatalog, disk: Disk, before: Disk, history: seq<Event>, from: nat) {
    && (AsBefore(entry.target, disk, before) || FailedOn(history, from, entry.target))
    && (entry.backup.Some? ==> FailedOn(history, from, entry.backup.value))
  }

  ghost predicate SettledFrom(staged: seq<StagedCatalog>, index: nat, disk: Disk, before: Disk, history: seq<Event>,
                              from: nat) {
    forall i | index <= i < |staged| :: Settled(staged[i], disk, before, history, from)
  }

  /** One more entry is settled, and the later ones stay so. */
  lemma SettledStep(staged: seq<StagedCatalog>, after: seq<StagedCatalog>, index: nat, disk: Disk, now: Disk,
                    before: Disk, middle: seq<Event>, history: seq<Event>, from: nat)
    requires index < |staged| == |after| && middle <= history && from <= |middle|
    requires SettledFrom(staged, index + 1, disk, before, middle, from)
    requires Settled(after[index], now, before, history, |middle|)
    requires forall i | index < i < |staged| :: after[i] == staged[i] && AsBefore(staged[i].target, now, disk)
    ensures SettledFrom(after, index, now, before, history, from)
  {
    FailedOnLater(middle, history, from, from);
    FailedOnLater(history, history, |middle|, from);
  }

  /** Cleaning up after all entries are settled. */
  lemma SettledThenCleaned(job: Job, staged: seq<StagedCatalog>, disk: Disk, now: Disk, middle: seq<Event>,
                           history: seq<Event>, from: nat, stray: set<Path>)
    requires middle <= history && from <= |middle|
    requires SettledFrom(staged, 0, disk, job.before, middle, from)
    requires LeftBut(job, now, history, |middle|, stray + Backups(staged))
    requires forall i | 0 <= i < |staged| :: AsBefore(staged[i].target, now, disk)
    ensures forall i | 0 <= i < |staged| ::
      AsBefore(staged[i].target, now, job.before) || FailedOn(history, from, staged[i].target)
    ensures LeftBut(job, now, history, from, stray)
  {
    FailedOnLater(middle, history, from, from);
    FailedOnLater(history, history, |middle|, from);
  }

  lemma LeftStep(job: Job, disk: Disk, now: Disk, middle: seq<Event>, history: seq<Event>, from: nat,
                 allowed: set<Path>, path: Path)
    requires LeftBut(job, disk, middle, from, allowed + {path}) && job.Extra(now) <= job.Extra(disk)
    requires middle <= history && |history| == |middle| + 1 && from <= |middle|
    requires path in now ==> history[|middle|].failed && history[|middle|].path == Some(path)
    ensures LeftBut(job, now, history, from, allowed)
  {
    FailedOnLater(middle, history, from, from);
    if path in now {
      FailedLast(history, from, path);
    }
  }

  lemma LeftSmooth(job: Job, disk: Disk, history: seq<Event>, from: nat, allowed: set<Path>)
    requires LeftBut(job, disk, history, from, allowed)
    ensures Smooth(history, from) ==> job.Extra(disk) <= allowed
  {
    if Smooth(history, from) {
      FailedOnNothing(history, from);
    }
  }

  /** Some target is there and is no regular file. */
  ghost predicate Barred(job: Job) {
    exists p | p in job.targets && p in job.before :: job.before[p].Irregular?
  }

  /** The entries name the catalogs of the job, each with a temporary file of its
      own, and with a backup where there was an old file. */
  ghost predicate Describe(job: Job, entries: seq<StagedCatalog>) {
    && |entries| == |job.catalogs|
    && (forall i | 0 <= i < |entries| :: entries[i].target == Artifact(job.catalogs[i].name))
    && (forall i | 0 <= i < |entries| :: entries[i].temporary.Some? && entries[i].temporary.value.Temporary?)
    && (forall i, j | 0 <= i < j < |entries| :: entries[i].temporary != entries[j].temporary)
    && (forall i | 0 <= i < |entries| :: entries[i].backup.Some? <==> entries[i].target in job.before)
    && (forall i | 0 <= i < |entries| && entries[i].backup.Some? :: entries[i].backup.value.Temporary?)
  }

  /** The whole course of a publication that goes through: every catalog is staged,
      then every old file set aside, then every new one moved in, and last the
      backups removed. */
  ghost predicate Orderly(job: Job, log: seq<Event>, history: seq<Event>) {
    exists entries | Describe(job, entries) ::
      history == log + [Event(Prepare, None, false)] + Each(StagingOf, entries) + Each(AsideOf, entries)
        + Each(MovingOf, entries) + Each(DroppingOf, entries)
  }

  /** The part that follows staging. */
  ghost predicate Replacing(staged: seq<StagedCatalog>, log: seq<Event>, history: seq<Event>) {
    exists entries | SetAside(staged, entries) ::
      history == log + Each(AsideOf, entries) + Each(MovingOf, entries) + Each(DroppingOf, entries)
  }

  ghost predicate SetAside(staged: seq<StagedCatalog>, entries: seq<StagedCatalog>) {
    && |entries| == |staged|
    && (forall i | 0 <= i < |staged| :: entries[i] == staged[i].(backup := entries[i].backup))
    && (forall i | 0 <= i < |staged| :: entries[i].backup.Some? <==> entries[i].existed)
    && (forall i | 0 <= i < |staged| && entries[i].backup.Some? :: entries[i].backup.value.Temporary?)
  }

  /** The first `done` entries have been set aside where there was an old file. */
  ghost predicate AsideUpTo(staged: seq<StagedCatalog>, entries: seq<StagedCatalog>, done: nat) {
    && |entries| == |staged|
    && (forall i | 0 <= i < |staged| :: entries[i] == staged[i].(backup := entries[i].backup))
    && (forall i | done <= i < |staged| :: entries[i] == staged[i])
    && (forall i | 0 <= i < |staged| && i < done :: entries[i].backup.Some? <==> entries[i].existed)
    && (forall i | 0 <= i < |staged| && i < done && entries[i].backup.Some? :: entries[i].backup.value.Temporary?)
  }

  lemma NothingAside(staged: seq<StagedCatalog>)
    ensures AsideUpTo(staged, staged, 0) && Each(AsideOf, staged[..0]) == []
  {
  }

  lemma AsideStep(staged: seq<StagedCatalog>, before: seq<StagedCatalog>, entries: seq<StagedCatalog>, index: nat)
    requires AsideUpTo(staged, before, index) && index < |staged| && staged[index].backup.None?
    requires if !before[index].existed then entries == before
      else
        && |entries| == |before| && entries[index].backup.Some? && entries[index].backup.value.Temporary?
        && entries == before[index := before[index].(backup := entries[index].backup)]
    ensures AsideUpTo(staged, entries, index + 1) && entries[..index] == before[..index]
    ensures !before[index].existed ==> AsideOf(entries[index]) == []
  {
  }

  /** The first `done` entries have been moved onto their targets. */
  ghost predicate MovedTo(staged: seq<StagedCatalog>, entries: seq<StagedCatalog>, done: nat) {
    && |entries| == |staged|
    && forall i | 0 <= i < |staged| ::
         entries[i] == if i < done then staged[i].(temporary := None, published := true) else staged[i]
  }

  lemma NothingMovedIn(staged: seq<StagedCatalog>)
    ensures MovedTo(staged, staged, 0)
  {
  }

  lemma MovedStep(staged: seq<StagedCatalog>, entries: seq<StagedCatalog>, index: nat)
    requires MovedTo(staged, entries, index) && index < |staged|
    ensures entries[index] == staged[index]
    ensures MovedTo(staged, entries[index := entries[index].(temporary := None, published := true)], index + 1)
  {
  }

  lemma DroppingForgets(staged: seq<StagedCatalog>, entries: seq<StagedCatalog>)
    requires MovedTo(staged, entries, |staged|)
    ensures Each(DroppingOf, entries) == Each(DroppingOf, staged)
  {
    EachAgree(DroppingOf, entries, staged);
  }

  /** The first `done` backups have been removed. */
  ghost predicate DroppedTo(staged: seq<StagedCatalog>, entries: seq<StagedCatalog>, done: nat) {
    && |entries| == |staged|
    && forall i | 0 <= i < |staged| :: entries[i] == if i < done then staged[i].(backup := None) else staged[i]
  }

  lemma DroppedStep(staged: seq<StagedCatalog>, entries: seq<StagedCatalog>, index: nat)
    requires DroppedTo(staged, entries, index) && index < |staged|
    ensures entries[index] == staged[index]
    ensures DroppedTo(staged, entries[index := entries[index].(backup := None)], index + 1)
    ensures staged[index].backup.None? ==> DroppedTo(staged, entries, index + 1) && DroppingOf(staged[index]) == []
    ensures staged[index].backup.Some? ==>
      DroppingOf(staged[index]) == [Event(Operation.Remove, staged[index].backup, false)]
  {
  }

  lemma NothingDropped(staged: seq<StagedCatalog>)
    ensures DroppedTo(staged, staged, 0) && Each(DroppingOf, staged[..0]) == []
  {
  }

  lemma AsideAll(staged: seq<StagedCatalog>, entries: seq<StagedCatalog>)
    requires AsideUpTo(staged, entries, |staged|)
    ensures SetAside(staged, entries)
  {
  }

  lemma StagedThenReplaced(job: Job, staged: seq<StagedCatalog>, log: seq<Event>, middle: seq<Event>,
                           history: seq<Event>, disk: Disk)
    requires job.Held(disk, staged, {}) && |staged| == |job.catalogs|
    requires forall i | 0 <= i < |staged| :: staged[i].temporary.Some?
    requires middle == log + [Event(Prepare, None, false)] + Each(StagingOf, staged)
    requires Replacing(staged, middle, history)
    ensures Orderly(job, log, history)
  {
    hide Job.Held, Each, Describe;
    var entries :| SetAside(staged, entries) &&
      history == middle + Each(AsideOf, entries) + Each(MovingOf, entries) + Each(DroppingOf, entries);
    EachAgree(StagingOf, staged, entries);
    HeldDescribes(job, disk, staged, entries);
  }

  lemma HeldEntry(job: Job, disk: Disk, staged: seq<StagedCatalog>, i: nat)
    requires job.Held(disk, staged, {}) && i < |staged| && staged[i].temporary.Some?
    ensures |staged| <= |job.catalogs| && staged[i].target == Target(job.catalogs[i])
    ensures staged[i].existed <==> staged[i].target in job.before
    ensures staged[i].temporary.value.Temporary?
    ensures forall j | 0 <= j < i :: staged[j].temporary != staged[i].temporary
  {
    hide Job.Secured, Job.Accounted;
    assert job.Entry(staged[i], job.catalogs[i]);
    assert staged[i].temporary.value in Own(staged[i]);
    forall j | 0 <= j < i ensures staged[j].temporary != staged[i].temporary {
      assert Own(staged[j]) !! Own(staged[i]);
    }
  }

  lemma HeldDescribes(job: Job, disk: Disk, staged: seq<StagedCatalog>, entries: seq<StagedCatalog>)
    requires job.Held(disk, staged, {}) && |staged| == |job.catalogs| && SetAside(staged, entries)
    requires forall i | 0 <= i < |staged| :: staged[i].temporary.Some?
    ensures Describe(job, entries)
  {
    hide Job.Held;
    forall i | 0 <= i < |staged|
      ensures staged[i].target == Target(job.catalogs[i])
      ensures staged[i].existed <==> staged[i].target in job.before
      ensures staged[i].temporary.value.Temporary?
      ensures forall j | 0 <= j < i :: staged[j].temporary != staged[i].temporary
    {
      HeldEntry(job, disk, staged, i);
    }
  }

  /** With every catalog staged, no target is irregular. */
  lemma StagedIsNotBarred(job: Job, disk: Disk, staged: seq<StagedCatalog>)
    requires job.Held(disk, staged, {}) && |staged| == |job.catalogs| && job.targets == Targets(job.catalogs)
    ensures !Barred(job)
  {
    forall p | p in job.targets && p in job.before ensures job.before[p].Regular? {
      var i :| 0 <= i < |job.catalogs| && Target(job.catalogs[i]) == p;
      assert job.Entry(staged[i], job.catalogs[i]);
    }
  }
}
