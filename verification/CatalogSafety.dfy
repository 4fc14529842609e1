/** What it means for the publication of a set of catalogs to be safe, as
    predicates on single directory states and on the states a run passes through. */
module CatalogSafety {
  import opened Wrappers
  import opened FileSystem

  datatype Catalog = Catalog(name: string, content: Bytes)

  /** One catalog on its way from its temporary file to its target. */
  datatype StagedCatalog = StagedCatalog(
    target: Path, temporary: Option<Path>, backup: Option<Path>, existed: bool, published: bool)

  function Target(catalog: Catalog): Path { Artifact(catalog.name) }

  ghost predicate DistinctNames(catalogs: seq<Catalog>) {
    forall i, j | 0 <= i < j < |catalogs| :: catalogs[i].name != catalogs[j].name
  }

  ghost predicate AsBefore(path: Path, disk: Disk, before: Disk) {
    (path in disk <==> path in before) && (path in before ==> disk[path] == before[path])
  }

  /** A set of catalogs and the directory they are published into. */
  datatype Job = Job(before: Disk, catalogs: seq<Catalog>, targets: set<Path>) {

    ghost predicate Valid() {
      && DistinctNames(catalogs)
      && (forall i | 0 <= i < |catalogs| :: Target(catalogs[i]) in targets)
      && (forall p | p in targets :: p.Artifact?)
    }

    ghost predicate AllOld(disk: Disk) {
      forall i | 0 <= i < |catalogs| :: AsBefore(Target(catalogs[i]), disk, before)
    }

    ghost predicate AllNew(disk: Disk) {
      forall i | 0 <= i < |catalogs| ::
        Target(catalogs[i]) in disk && disk[Target(catalogs[i])] == Regular(catalogs[i].content)
    }

    /** Files that are not targets are as they were, and nothing but targets and
        temporary names has appeared. */
    ghost predicate Untouched(disk: Disk) {
      && (forall p | p in before && p !in targets :: p in disk && disk[p] == before[p])
      && (forall p | p in disk && p !in before :: p in targets || p.Temporary?)
    }

    /** `homes[i]` is where the old bytes of target `i` are: at the target itself
        or under a temporary name that no other target uses. */
    ghost predicate KeptAt(disk: Disk, homes: seq<Path>) {
      && |homes| == |catalogs|
      && (forall i, j | 0 <= i < j < |homes| :: homes[i] != homes[j])
      && (forall i | 0 <= i < |homes| :: homes[i] == Target(catalogs[i]) || homes[i].Temporary?)
      && (forall i | 0 <= i < |homes| && Target(catalogs[i]) in before ::
            homes[i] in disk && disk[homes[i]] == before[Target(catalogs[i])])
    }

    /** No target that existed has lost its old bytes, and no other file is touched. */
    ghost predicate Preserved(disk: Disk) {
      Untouched(disk) && exists homes :: KeptAt(disk, homes)
    }

    /** Every target holds its new bytes, and no other file is touched. */
    ghost predicate Replaced(disk: Disk) {
      Untouched(disk) && AllNew(disk)
    }

    /** The states added to `log` all preserve the old artifacts. */
    ghost predicate KeptSince(log: seq<Disk>, trace: seq<Disk>) {
      log <= trace && forall k | |log| <= k < |trace| :: Preserved(trace[k])
    }

    /** The states added to `log` keep every old artifact up to state number
        `cut`; from then on every target holds its new bytes. */
    ghost predicate SafeRun(log: seq<Disk>, trace: seq<Disk>, cut: nat) {
      && log <= trace
      && (forall k | |log| <= k < |trace| && k < cut :: Preserved(trace[k]))
      && (forall k | |log| <= k < |trace| && cut <= k :: Replaced(trace[k]))
    }

    // ----- the staged entries

    /** Staged entries describe the first catalogs, under names of their own. */
    ghost predicate Entries(staged: seq<StagedCatalog>) {
      && |staged| <= |catalogs|
      && (forall i | 0 <= i < |staged| :: Entry(staged[i], catalogs[i]))
      && (forall i, p | 0 <= i < |staged| && p in Own(staged[i]) :: p.Temporary? && p !in before)
      && (forall i, j | 0 <= i < j < |staged| :: Own(staged[i]) !! Own(staged[j]))
    }

    ghost predicate Entry(entry: StagedCatalog, catalog: Catalog) {
      && entry.target == Target(catalog)
      && entry.existed == (entry.target in before)
      && (entry.existed ==> before[entry.target].Regular?)
      && (entry.backup.Some? ==> entry.existed)
      && (entry.temporary.Some? && entry.backup.Some? ==> entry.temporary != entry.backup)
    }

    /** The old bytes of every target are at its home. */
    ghost predicate Secured(disk: Disk, staged: seq<StagedCatalog>) {
      && (forall i | 0 <= i < |staged| && staged[i].existed ::
            Home(staged[i]) in disk && staged[i].target in before && disk[Home(staged[i])] == before[staged[i].target])
      && (forall i | |staged| <= i < |catalogs| :: AsBefore(Target(catalogs[i]), disk, before))
    }

    /** Old files are there, and each new name is a target, owned by an entry, or stray. */
    ghost predicate Accounted(disk: Disk, staged: seq<StagedCatalog>, stray: set<Path>) {
      Untouched(disk) && Extra(disk) <= stray + Owned(staged)
    }

    /** Nothing is lost and everything is accounted for. */
    ghost predicate Held(disk: Disk, staged: seq<StagedCatalog>, stray: set<Path>) {
      Valid() && Entries(staged) && Secured(disk, staged) && Accounted(disk, staged, stray)
    }

    /** Names that have appeared beside the targets. */
    ghost function Extra(disk: Disk): set<Path> {
      set p | p in disk && p !in before && p !in targets
    }

    /** Where the first targets are while no rollback has touched them. */
    ghost predicate Pending(disk: Disk, staged: seq<StagedCatalog>, until: nat)
      requires until <= |staged| <= |catalogs|
    {
      && (forall i | 0 <= i < until && staged[i].published ::
            && staged[i].target in disk && disk[staged[i].target] == Regular(catalogs[i].content)
            && (staged[i].existed ==> staged[i].backup.Some?))
      && (forall i | 0 <= i < until && !staged[i].published ::
            if staged[i].backup.Some? then staged[i].target !in disk else AsBefore(staged[i].target, disk, before))
    }

    /** The later targets are restored. */
    ghost predicate OldFrom(disk: Disk, staged: seq<StagedCatalog>, from: nat) {
      forall i | from <= i < |staged| :: AsBefore(staged[i].target, disk, before) && staged[i].backup.None?
    }

    /** Every temporary that is still staged holds its whole content. */
    ghost predicate Ready(disk: Disk, staged: seq<StagedCatalog>)
      requires |staged| <= |catalogs|
    {
      forall i | 0 <= i < |staged| && staged[i].temporary.Some? ::
        staged[i].temporary.value in disk && disk[staged[i].temporary.value] == Regular(catalogs[i].content)
    }
  }

  ghost function Targets(catalogs: seq<Catalog>): set<Path> {
    set i | 0 <= i < |catalogs| :: Target(catalogs[i])
  }

  ghost function Own(entry: StagedCatalog): set<Path> {
    (if entry.temporary.Some? then {entry.temporary.value} else {}) +
    (if entry.backup.Some? then {entry.backup.value} else {})
  }

  ghost function Home(entry: StagedCatalog): Path {
    if entry.backup.Some? then entry.backup.value else entry.target
  }

  ghost function Temporaries(staged: seq<StagedCatalog>, from: nat): set<Path> {
    set i | from <= i < |staged| && staged[i].temporary.Some? :: staged[i].temporary.value
  }

  ghost function Backups(staged: seq<StagedCatalog>): set<Path> {
    set i | 0 <= i < |staged| && staged[i].backup.Some? :: staged[i].backup.value
  }

  ghost function Owned(staged: seq<StagedCatalog>): set<Path> {
    Temporaries(staged, 0) + Backups(staged)
  }

  // ----- single steps

  lemma HomesDiffer(job: Job, staged: seq<StagedCatalog>, i: nat, j: nat)
    requires job.Valid() && job.Entries(staged) && i < |staged| && j < |staged| && i != j
    ensures Home(staged[i]) != Home(staged[j]) && staged[i].target != staged[j].target
  {
    assert job.Entry(staged[i], job.catalogs[i]) && job.Entry(staged[j], job.catalogs[j]);
    assert staged[i].backup.Some? ==> staged[i].backup.value in Own(staged[i]);
    assert staged[j].backup.Some? ==> staged[j].backup.value in Own(staged[j]);
    assert Own(staged[i]) !! Own(staged[j]);
  }

  lemma HomeKind(job: Job, staged: seq<StagedCatalog>, i: nat)
    requires job.Valid() && job.Entries(staged) && i < |staged|
    ensures staged[i].target == Target(job.catalogs[i]) && staged[i].target in job.targets
    ensures Home(staged[i]).Temporary? <==> staged[i].backup.Some?
    ensures Home(staged[i]) == staged[i].target || Home(staged[i]) in Own(staged[i])
  {
    assert staged[i].backup.Some? ==> staged[i].backup.value in Own(staged[i]);
  }

  lemma HeldTargets(job: Job, disk: Disk, staged: seq<StagedCatalog>, stray: set<Path>)
    requires job.Held(disk, staged, stray)
    ensures |staged| <= |job.catalogs| && forall i | 0 <= i < |staged| :: staged[i].target == Target(job.catalogs[i])
  {
    forall i | 0 <= i < |staged| ensures staged[i].target == Target(job.catalogs[i]) {
      HomeKind(job, staged, i);
    }
  }

  lemma SecuredPreserves(job: Job, disk: Disk, staged: seq<StagedCatalog>)
    requires job.Valid() && job.Entries(staged) && job.Secured(disk, staged) && job.Untouched(disk)
    ensures job.Preserved(disk)
  {
    var homes := seq(|job.catalogs|, i requires 0 <= i < |job.catalogs| =>
      if i < |staged| then Home(staged[i]) else Target(job.catalogs[i]));
    forall i, j | 0 <= i < j < |homes| ensures homes[i] != homes[j] {
      if j < |staged| {
        HomesDiffer(job, staged, i, j);
      } else if i < |staged| {
        HomeKind(job, staged, i);
      }
    }
    forall i | 0 <= i < |homes| ensures homes[i] == Target(job.catalogs[i]) || homes[i].Temporary? {
      if i < |staged| {
        HomeKind(job, staged, i);
      }
    }
    assert job.KeptAt(disk, homes);
  }

  lemma HeldPreserves(job: Job, disk: Disk, staged: seq<StagedCatalog>, stray: set<Path>)
    requires job.Held(disk, staged, stray)
    ensures job.Preserved(disk)
  {
    SecuredPreserves(job, disk, staged);
  }

  /** Changing only paths that are nobody's home loses nothing. */
  lemma SecuredFrame(job: Job, disk: Disk, after: Disk, staged: seq<StagedCatalog>, changed: set<Path>)
    requires job.Valid() && job.Entries(staged) && job.Secured(disk, staged)
    requires forall p | p !in changed :: AsBefore(p, after, disk)
    requires forall i | 0 <= i < |staged| && staged[i].existed :: Home(staged[i]) !in changed
    requires forall i | |staged| <= i < |job.catalogs| :: Target(job.catalogs[i]) !in changed
    ensures job.Secured(after, staged)
  {
  }

  lemma UntouchedFrame(job: Job, disk: Disk, after: Disk, changed: set<Path>)
    requires job.Valid() && job.Untouched(disk)
    requires forall p | p !in changed :: AsBefore(p, after, disk)
    requires forall p | p in changed :: p in job.targets || (p.Temporary? && p !in job.before)
    ensures job.Untouched(after)
    ensures job.Extra(after) <= job.Extra(disk) + set p | p in changed && p in after
  {
  }

  lemma TemporariesStep(staged: seq<StagedCatalog>, index: nat)
    requires index < |staged|
    ensures Temporaries(staged, index) == Temporaries(staged, index + 1) +
              (if staged[index].temporary.Some? then {staged[index].temporary.value} else {})
  {
  }

  lemma OwnedAreTemporary(job: Job, staged: seq<StagedCatalog>)
    requires job.Valid() && job.Entries(staged)
    ensures forall p | p in Owned(staged) :: p.Temporary? && p !in job.before && p !in job.targets
    ensures forall i | 0 <= i < |staged| :: staged[i].target !in Owned(staged)
  {
    forall p | p in Owned(staged) ensures p.Temporary? && p !in job.before {
      if p in Temporaries(staged, 0) {
        var i :| 0 <= i < |staged| && staged[i].temporary == Some(p);
        assert p in Own(staged[i]);
      } else {
        var i :| 0 <= i < |staged| && staged[i].backup == Some(p);
        assert p in Own(staged[i]);
      }
    }
    forall i | 0 <= i < |staged| ensures !staged[i].target.Temporary? {
      HomeKind(job, staged, i);
    }
  }

  /** Removing a staged temporary endangers nothing. */
  lemma TemporaryRemoved(job: Job, disk: Disk, after: Disk, staged: seq<StagedCatalog>, stray: set<Path>, index: nat)
    requires job.Held(disk, staged, stray)
    requires index < |staged| && staged[index].temporary.Some?
    requires after == disk || after == disk - {staged[index].temporary.value}
    ensures job.Held(after, staged, stray) && job.Preserved(after)
    ensures job.Extra(after) <= job.Extra(disk)
  {
    var path := staged[index].temporary.value;
    assert path in Own(staged[index]);
    forall i | 0 <= i < |staged| ensures Home(staged[i]) != path {
      HomeKind(job, staged, i);
      assert job.Entry(staged[i], job.catalogs[i]);
    }
    SecuredFrame(job, disk, after, staged, {path});
    UntouchedFrame(job, disk, after, {path});
    SecuredPreserves(job, after, staged);
  }

  /** Withdrawing a published target is safe because its old bytes are set aside. */
  lemma TargetRemoved(job: Job, disk: Disk, after: Disk, staged: seq<StagedCatalog>, stray: set<Path>, index: nat)
    requires job.Held(disk, staged, stray)
    requires index < |staged| && job.Pending(disk, staged, index + 1)
    requires staged[index].published
    requires after == disk || after == disk - {staged[index].target}
    ensures job.Held(after, staged, stray) && job.Preserved(after)
    ensures job.Pending(after, staged, index)
    ensures job.OldFrom(disk, staged, index + 1) ==> job.OldFrom(after, staged, index + 1)
    ensures SameExcept(after, disk, Own(staged[index]) + {staged[index].target})
  {
    var path := staged[index].target;
    HomeKind(job, staged, index);
    forall i | 0 <= i < |staged| && i != index ensures Home(staged[i]) != path && staged[i].target != path {
      HomesDiffer(job, staged, i, index);
      HomeKind(job, staged, i);
    }
    assert staged[index].existed ==> Home(staged[index]) != path;
    SecuredFrame(job, disk, after, staged, {path});
    UntouchedFrame(job, disk, after, {path});
    SecuredPreserves(job, after, staged);
  }

  lemma EntriesUpdate(job: Job, staged: seq<StagedCatalog>, index: nat, entry: StagedCatalog, gained: set<Path>)
    requires job.Valid() && job.Entries(staged) && index < |staged|
    requires job.Entry(entry, job.catalogs[index])
    requires Own(entry) <= Own(staged[index]) + gained
    requires forall p | p in gained :: p.Temporary? && p !in job.before
    requires forall i | 0 <= i < |staged| :: Own(staged[i]) !! gained
    ensures job.Entries(staged[index := entry])
  {
    var updated := staged[index := entry];
    forall i, j | 0 <= i < j < |updated| ensures Own(updated[i]) !! Own(updated[j]) {
      assert Own(staged[i]) !! Own(staged[j]);
    }
  }

  lemma OwnedUpdate(staged: seq<StagedCatalog>, index: nat, entry: StagedCatalog)
    requires index < |staged|
    ensures Owned(staged) - Own(staged[index]) + Own(entry) <= Owned(staged[index := entry])
  {
    var updated := staged[index := entry];
    forall p | p in Owned(staged) - Own(staged[index]) ensures p in Owned(updated) {
      if p in Temporaries(staged, 0) {
        var i :| 0 <= i < |staged| && staged[i].temporary == Some(p);
        assert updated[i] == staged[i];
      } else {
        var i :| 0 <= i < |staged| && staged[i].backup == Some(p);
        assert updated[i] == staged[i];
      }
    }
    forall p | p in Own(entry) ensures p in Owned(updated) {
      assert updated[index] == entry;
    }
  }

  lemma OwnedShrinks(staged: seq<StagedCatalog>, index: nat, entry: StagedCatalog)
    requires index < |staged| && Own(entry) <= Own(staged[index])
    ensures Owned(staged[index := entry]) <= Owned(staged)
  {
    var updated := staged[index := entry];
    assert forall i, p | 0 <= i < |updated| && p in Own(updated[i]) :: p in Own(staged[i]);
    forall p | p in Owned(updated) ensures p in Owned(staged) {
      if p in Temporaries(updated, 0) {
        var i :| 0 <= i < |updated| && updated[i].temporary == Some(p);
        assert p in Own(updated[i]);
      } else {
        var i :| 0 <= i < |updated| && updated[i].backup == Some(p);
        assert p in Own(updated[i]);
      }
    }
  }

  lemma OwnIsOwned(staged: seq<StagedCatalog>, index: nat)
    requires index < |staged|
    ensures Own(staged[index]) <= Owned(staged)
  {
  }

  /** Everything an entry owns is on the disk, so a name not on the disk is nobody's. */
  lemma FreshName(job: Job, disk: Disk, staged: seq<StagedCatalog>, path: Path)
    requires job.Valid() && job.Entries(staged) && job.Secured(disk, staged) && job.Ready(disk, staged)
    requires path !in disk
    ensures forall i | 0 <= i < |staged| :: Own(staged[i]) !! {path}
  {
    forall i | 0 <= i < |staged| ensures path !in Own(staged[i]) {
      assert job.Entry(staged[i], job.catalogs[i]);
      if staged[i].backup.Some? {
        assert Home(staged[i]) in disk;
      }
    }
  }

  ghost predicate SameBesides(disk: Disk, after: Disk, entry: StagedCatalog) {
    && AsBefore(Home(entry), after, disk) && AsBefore(entry.target, after, disk)
    && (entry.temporary.Some? ==> AsBefore(entry.temporary.value, after, disk))
  }

  /** What one step does to its own target and to owned or free names leaves the
      homes, targets and temporaries of the other entries alone. */
  lemma OthersKept(job: Job, disk: Disk, after: Disk, staged: seq<StagedCatalog>, index: nat, changed: set<Path>)
    requires job.Valid() && job.Entries(staged) && index < |staged|
    requires forall p | p !in changed :: AsBefore(p, after, disk)
    requires forall p | p in changed :: p == staged[index].target || p in Own(staged[index]) ||
               (p.Temporary? && forall i | 0 <= i < |staged| :: p !in Own(staged[i]))
    ensures forall i | 0 <= i < |staged| && i != index :: SameBesides(disk, after, staged[i])
    ensures forall i | |staged| <= i < |job.catalogs| :: AsBefore(Target(job.catalogs[i]), after, disk)
  {
    HomeKind(job, staged, index);
    forall i | 0 <= i < |staged| && i != index
      ensures Home(staged[i]) !in changed && staged[i].target !in changed
      ensures staged[i].temporary.Some? ==> staged[i].temporary.value !in changed
    {
      HomesDiffer(job, staged, i, index);
      HomeKind(job, staged, i);
      assert Own(staged[i]) !! Own(staged[index]);
      assert staged[i].temporary.Some? ==> staged[i].temporary.value in Own(staged[i]);
    }
  }

  lemma AccountedStep(job: Job, disk: Disk, after: Disk, staged: seq<StagedCatalog>, stray: set<Path>,
                      index: nat, entry: StagedCatalog, changed: set<Path>)
    requires job.Valid() && job.Accounted(disk, staged, stray) && index < |staged|
    requires Own(staged[index]) <= changed
    requires forall p | p !in changed :: AsBefore(p, after, disk)
    requires forall p | p in changed :: p in job.targets || (p.Temporary? && p !in job.before)
    requires forall p | p in changed && p in after && p !in job.targets :: p in Own(entry)
    ensures job.Accounted(after, staged[index := entry], stray)
  {
    UntouchedFrame(job, disk, after, changed);
    OwnedUpdate(staged, index, entry);
    forall p | p in job.Extra(after) ensures p in stray + Owned(staged[index := entry]) {
      if p !in changed {
        assert p in job.Extra(disk);
      }
    }
  }

  lemma SecuredStep(job: Job, disk: Disk, after: Disk, staged: seq<StagedCatalog>, index: nat, entry: StagedCatalog)
    requires job.Secured(disk, staged) && index < |staged|
    requires entry.existed ==>
      Home(entry) in after && entry.target in job.before && after[Home(entry)] == job.before[entry.target]
    requires forall i | 0 <= i < |staged| && i != index :: SameBesides(disk, after, staged[i])
    requires forall i | |staged| <= i < |job.catalogs| :: AsBefore(Target(job.catalogs[i]), after, disk)
    ensures job.Secured(after, staged[index := entry])
  {
    hide Home;
    var updated := staged[index := entry];
    forall i | 0 <= i < |updated| && updated[i].existed
      ensures Home(updated[i]) in after && updated[i].target in job.before
      ensures after[Home(updated[i])] == job.before[updated[i].target]
    {
      if i != index {
        assert SameBesides(disk, after, staged[i]) && Home(staged[i]) in disk;
      }
    }
  }

  /** A step that changes one entry, its target and names it owns or gains. */
  lemma HeldStep(job: Job, disk: Disk, after: Disk, staged: seq<StagedCatalog>, stray: set<Path>,
                 index: nat, entry: StagedCatalog, gained: set<Path>)
    requires job.Held(disk, staged, stray) && index < |staged|
    requires job.Entry(entry, job.catalogs[index]) && entry.existed == staged[index].existed
    requires Own(entry) <= Own(staged[index]) + gained
    requires forall p | p in gained :: p.Temporary? && p !in job.before
    requires forall i | 0 <= i < |staged| :: Own(staged[i]) !! gained
    requires forall p | p !in Own(staged[index]) + gained + {entry.target} :: AsBefore(p, after, disk)
    requires forall p | p in Own(staged[index]) + gained && p in after :: p in Own(entry)
    requires entry.existed ==> Home(entry) in after && after[Home(entry)] == job.before[entry.target]
    ensures job.Held(after, staged[index := entry], stray) && job.Preserved(after)
    ensures forall i | 0 <= i < |staged| && i != index :: SameBesides(disk, after, staged[i])
    ensures forall i | |staged| <= i < |job.catalogs| :: AsBefore(Target(job.catalogs[i]), after, disk)
  {
    var updated, changed := staged[index := entry], Own(staged[index]) + gained + {entry.target};
    HomeKind(job, staged, index);
    EntriesUpdate(job, staged, index, entry, gained);
    AccountedStep(job, disk, after, staged, stray, index, entry, changed);
    OthersKept(job, disk, after, staged, index, changed);
    SecuredStep(job, disk, after, staged, index, entry);
    SecuredPreserves(job, after, updated);
  }

  lemma PendingStep(job: Job, disk: Disk, after: Disk, staged: seq<StagedCatalog>, index: nat, entry: StagedCatalog)
    requires |staged| <= |job.catalogs| && index < |staged|
    requires job.Ready(disk, staged) && job.Pending(disk, staged, |staged|)
    requires forall i | 0 <= i < |staged| && i != index :: SameBesides(disk, after, staged[i])
    requires entry.temporary.Some? ==>
      entry.temporary.value in after && after[entry.temporary.value] == Regular(job.catalogs[index].content)
    requires if entry.published then
        && entry.target in after && after[entry.target] == Regular(job.catalogs[index].content)
        && (entry.existed ==> entry.backup.Some?)
      else if entry.backup.Some? then entry.target !in after
      else AsBefore(entry.target, after, job.before)
    ensures job.Ready(after, staged[index := entry]) && job.Pending(after, staged[index := entry], |staged|)
  {
    var updated := staged[index := entry];
    forall i | 0 <= i < |staged| && i != index ensures updated[i] == staged[i] && SameBesides(disk, after, updated[i]) {
    }
  }

  /** Setting an old file aside under a free name. */
  lemma BackedUp(job: Job, disk: Disk, after: Disk, staged: seq<StagedCatalog>, index: nat, backup: Path)
    requires job.Held(disk, staged, {}) && job.Ready(disk, staged) && job.Pending(disk, staged, |staged|)
    requires index < |staged| && staged[index].existed && !staged[index].published && staged[index].backup.None?
    requires backup.Temporary? && backup !in disk
    requires staged[index].target in disk
    requires after == (disk - {staged[index].target})[backup := disk[staged[index].target]]
    ensures var updated := staged[index := staged[index].(backup := Some(backup))];
      && job.Held(after, updated, {}) && job.Ready(after, updated)
      && job.Pending(after, updated, |updated|) && job.Preserved(after)
  {
    var target, entry := staged[index].target, staged[index].(backup := Some(backup));
    HomeKind(job, staged, index);
    FreshName(job, disk, staged, backup);
    assert job.Entry(staged[index], job.catalogs[index]);
    assert entry.temporary.Some? ==> entry.temporary.value in disk;
    HeldStep(job, disk, after, staged, {}, index, entry, {backup});
    PendingStep(job, disk, after, staged, index, entry);
  }

  /** Moving a staged file onto its target, once the old file is set aside. */
  lemma PublishedOne(job: Job, disk: Disk, after: Disk, staged: seq<StagedCatalog>, index: nat)
    requires job.Held(disk, staged, {}) && job.Ready(disk, staged) && job.Pending(disk, staged, |staged|)
    requires index < |staged| && !staged[index].published && staged[index].temporary.Some?
    requires staged[index].existed ==> staged[index].backup.Some?
    requires var temporary := staged[index].temporary.value;
      temporary in disk && after == (disk - {temporary})[staged[index].target := disk[temporary]]
    ensures var updated := staged[index := staged[index].(temporary := None, published := true)];
      && job.Held(after, updated, {}) && job.Ready(after, updated)
      && job.Pending(after, updated, |updated|) && job.Preserved(after)
  {
    var target, temporary := staged[index].target, staged[index].temporary.value;
    HomeKind(job, staged, index);
    assert job.Entry(staged[index], job.catalogs[index]);
    assert temporary in Own(staged[index]);
    var entry := staged[index].(temporary := None, published := true);
    HeldStep(job, disk, after, staged, {}, index, entry, {});
    PendingStep(job, disk, after, staged, index, entry);
  }

  /** Putting an old file back where it was. */
  lemma BackupRestored(job: Job, disk: Disk, after: Disk, staged: seq<StagedCatalog>, stray: set<Path>, index: nat)
    requires job.Held(disk, staged, stray)
    requires index < |staged| && staged[index].backup.Some? && job.Pending(disk, staged, index)
    requires var backup := staged[index].backup.value;
      backup in disk && after == (disk - {backup})[staged[index].target := disk[backup]]
    ensures var updated := staged[index := staged[index].(backup := None)];
      && job.Held(after, updated, stray) && job.Preserved(after) && job.Pending(after, updated, index)
      && (job.OldFrom(disk, staged, index + 1) ==> job.OldFrom(after, updated, index))
    ensures SameExcept(after, disk, Own(staged[index]) + {staged[index].target})
    ensures AsBefore(staged[index].target, after, job.before)
  {
    hide Job.Pending, Job.OldFrom, Job.Accounted, SameBesides;
    var target, backup := staged[index].target, staged[index].backup.value;
    HomeKind(job, staged, index);
    assert job.Entry(staged[index], job.catalogs[index]);
    HeldStep(job, disk, after, staged, stray, index, staged[index].(backup := None), {});
    RestoredPending(job, disk, after, staged, index);
  }

  lemma RestoredPending(job: Job, disk: Disk, after: Disk, staged: seq<StagedCatalog>, index: nat)
    requires |staged| <= |job.catalogs| && index < |staged| && job.Pending(disk, staged, index)
    requires forall i | 0 <= i < |staged| && i != index :: SameBesides(disk, after, staged[i])
    requires AsBefore(staged[index].target, after, job.before)
    ensures var updated := staged[index := staged[index].(backup := None)];
      && job.Pending(after, updated, index)
      && (job.OldFrom(disk, staged, index + 1) ==> job.OldFrom(after, updated, index))
  {
    hide Home;
    var updated := staged[index := staged[index].(backup := None)];
    forall i | 0 <= i < |staged| && i != index ensures updated[i] == staged[i] && SameBesides(disk, after, updated[i]) {
    }
  }

  ghost predicate SameExcept(disk: Disk, other: Disk, changed: set<Path>) {
    forall p | p !in changed :: AsBefore(p, disk, other)
  }

  /** Files under unclaimed temporary names come and go without consequence. */
  lemma ScratchOnly(job: Job, disk: Disk, after: Disk, staged: seq<StagedCatalog>, scratch: set<Path>)
    requires job.Held(disk, staged, {}) && job.Ready(disk, staged) && job.Pending(disk, staged, |staged|)
    requires SameExcept(after, disk, scratch)
    requires forall p | p in scratch :: p.Temporary? && p !in disk
    ensures job.Held(after, staged, scratch) && job.Preserved(after)
    ensures job.Ready(after, staged) && job.Pending(after, staged, |staged|)
  {
    forall i | 0 <= i < |staged|
      ensures Home(staged[i]) !in scratch && staged[i].target !in scratch
      ensures staged[i].temporary.Some? ==> staged[i].temporary.value !in scratch
    {
      HomeKind(job, staged, i);
      assert staged[i].existed ==> Home(staged[i]) in disk;
      assert job.Entry(staged[i], job.catalogs[i]);
    }
    SecuredFrame(job, disk, after, staged, scratch);
    UntouchedFrame(job, disk, after, scratch);
    SecuredPreserves(job, after, staged);
  }

  lemma ScratchTrace(job: Job, disk: Disk, staged: seq<StagedCatalog>, scratch: set<Path>, log: seq<Disk>,
                     trace: seq<Disk>)
    requires job.Held(disk, staged, {}) && job.Ready(disk, staged) && job.Pending(disk, staged, |staged|)
    requires forall p | p in scratch :: p.Temporary? && p !in disk
    requires log <= trace && forall k | |log| <= k < |trace| :: SameExcept(trace[k], disk, scratch)
    ensures job.KeptSince(log, trace)
  {
    forall k | |log| <= k < |trace| ensures job.Preserved(trace[k]) {
      ScratchOnly(job, disk, trace[k], staged, scratch);
    }
  }

  lemma OwnedOnDisk(job: Job, disk: Disk, staged: seq<StagedCatalog>)
    requires job.Valid() && job.Entries(staged) && job.Secured(disk, staged) && job.Ready(disk, staged)
    ensures forall p | p in Owned(staged) :: p in disk
  {
    forall i | 0 <= i < |staged| && staged[i].backup.Some? ensures staged[i].backup.value in disk {
      assert job.Entry(staged[i], job.catalogs[i]);
      assert Home(staged[i]) in disk;
    }
  }

  lemma OwnedMore(staged: seq<StagedCatalog>, entry: StagedCatalog)
    ensures Owned(staged) + Own(entry) <= Owned(staged + [entry])
  {
    var more := staged + [entry];
    assert more[|staged|] == entry;
    forall p | p in Owned(staged) ensures p in Owned(more) {
      if p in Temporaries(staged, 0) {
        var i :| 0 <= i < |staged| && staged[i].temporary == Some(p);
        assert more[i] == staged[i];
      } else {
        var i :| 0 <= i < |staged| && staged[i].backup == Some(p);
        assert more[i] == staged[i];
      }
    }
  }

  lemma EntriesMore(job: Job, staged: seq<StagedCatalog>, entry: StagedCatalog)
    requires job.Entries(staged) && |staged| < |job.catalogs| && job.Entry(entry, job.catalogs[|staged|])
    requires forall p | p in Own(entry) :: p.Temporary? && p !in job.before
    requires forall i | 0 <= i < |staged| :: Own(staged[i]) !! Own(entry)
    ensures job.Entries(staged + [entry])
  {
    var more := staged + [entry];
    forall i, j | 0 <= i < j < |more| ensures Own(more[i]) !! Own(more[j]) {
      if j < |staged| { assert Own(staged[i]) !! Own(staged[j]); }
    }
  }

  /** One more catalog is staged. */
  lemma StagedOne(job: Job, disk: Disk, after: Disk, staged: seq<StagedCatalog>, entry: StagedCatalog)
    requires job.Held(disk, staged, {}) && job.Ready(disk, staged) && job.Pending(disk, staged, |staged|)
    requires |staged| < |job.catalogs| && job.Entry(entry, job.catalogs[|staged|])
    requires entry.temporary.Some? && entry.backup.None? && !entry.published
    requires entry.temporary.value.Temporary? && entry.temporary.value !in disk
    requires after == disk[entry.temporary.value := Regular(job.catalogs[|staged|].content)]
    ensures job.Held(after, staged + [entry], {}) && job.Ready(after, staged + [entry])
    ensures job.Pending(after, staged + [entry], |staged| + 1)
  {
    var path, more := entry.temporary.value, staged + [entry];
    ScratchOnly(job, disk, after, staged, {path});
    FreshName(job, disk, staged, path);
    EntriesMore(job, staged, entry);
    OwnedMore(staged, entry);
  }

  /** With every target restored and no new name left, the directory is the old one. */
  lemma NothingChanged(job: Job, disk: Disk)
    requires job.Untouched(disk) && job.Extra(disk) == {}
    requires forall p | p in job.targets :: AsBefore(p, disk, job.before)
    ensures disk == job.before
  {
    forall p | p in disk ensures p in job.before {
      assert p !in job.Extra(disk);
    }
  }

  ghost predicate AllStaged(staged: seq<StagedCatalog>, backed: nat) {
    forall i | 0 <= i < |staged| ::
      && staged[i].temporary.Some? && !staged[i].published
      && (staged[i].backup.Some? <==> staged[i].existed && i < backed)
  }

  lemma AllStagedStep(staged: seq<StagedCatalog>, index: nat, backup: Path)
    requires index < |staged| && staged[index].existed && AllStaged(staged, index)
    ensures AllStaged(staged[index := staged[index].(backup := Some(backup))], index + 1)
  {
  }

  ghost predicate AtMostOne(paths: set<Path>) {
    forall p, q | p in paths && q in paths :: p == q
  }

  /** Empty files under names that belong to nobody. */
  ghost predicate Leaked(stray: set<Path>, disk: Disk, job: Job, staged: seq<StagedCatalog>) {
    && AtMostOne(stray) && stray !! Owned(staged)
    && (forall p | p in stray :: p.Temporary? && p in disk && disk[p] == Regular("") && p !in job.before)
  }

  lemma NothingLeaked(job: Job, disk: Disk, staged: seq<StagedCatalog>)
    ensures Leaked({}, disk, job, staged)
  {
  }

  lemma LeakedOnly(job: Job, disk: Disk, after: Disk, staged: seq<StagedCatalog>, stray: set<Path>)
    requires job.Held(disk, staged, {}) && job.Ready(disk, staged) && job.Pending(disk, staged, |staged|)
    requires AtMostOne(stray) && forall p | p in stray :: p.Temporary? && p !in disk
    requires after == disk + map p | p in stray :: Regular("")
    ensures job.Held(after, staged, stray) && job.Ready(after, staged) && job.Pending(after, staged, |staged|)
    ensures Leaked(stray, after, job, staged)
  {
    ScratchOnly(job, disk, after, staged, stray);
    OwnedOnDisk(job, disk, staged);
  }

  ghost predicate MovedIn(staged: seq<StagedCatalog>, moved: nat) {
    forall i | 0 <= i < |staged| ::
      && staged[i].published == (i < moved)
      && staged[i].temporary.Some? == (moved <= i)
      && (staged[i].existed ==> staged[i].backup.Some?)
  }

  lemma MovedInStep(staged: seq<StagedCatalog>, index: nat)
    requires index < |staged| && MovedIn(staged, index)
    ensures MovedIn(staged[index := staged[index].(temporary := None, published := true)], index + 1)
  {
  }

  lemma AllMovedIn(job: Job, disk: Disk, staged: seq<StagedCatalog>)
    requires job.Held(disk, staged, {}) && job.Pending(disk, staged, |staged|)
    requires MovedIn(staged, |staged|) && |staged| == |job.catalogs|
    ensures job.Valid() && job.Entries(staged) && job.Replaced(disk)
    ensures job.Extra(disk) <= Backups(staged) && BackupsPresent(disk, staged)
    ensures forall p | p in Backups(staged) :: p.Temporary? && p !in job.before
  {
    OwnedAreTemporary(job, staged);
    forall i | 0 <= i < |staged| && staged[i].backup.Some? ensures staged[i].backup.value in disk {
      assert job.Entry(staged[i], job.catalogs[i]);
      assert Home(staged[i]) in disk;
    }
    forall i | 0 <= i < |job.catalogs|
      ensures Target(job.catalogs[i]) in disk && disk[Target(job.catalogs[i])] == Regular(job.catalogs[i].content)
    {
      HomeKind(job, staged, i);
    }
    assert Temporaries(staged, 0) == {};
  }

  ghost predicate BackupsPresent(disk: Disk, staged: seq<StagedCatalog>) {
    forall i | 0 <= i < |staged| && staged[i].backup.Some? :: staged[i].backup.value in disk
  }

  lemma NoBackupsLeft(staged: seq<StagedCatalog>)
    requires forall i | 0 <= i < |staged| :: staged[i].backup.None?
    ensures Backups(staged) == {}
  {
  }

  /** Once every target is new, removing a backup keeps the set complete. */
  lemma BackupDropped(job: Job, disk: Disk, after: Disk, staged: seq<StagedCatalog>, index: nat)
    requires job.Valid() && job.Replaced(disk)
    requires index < |staged| && staged[index].backup.Some? && job.Extra(disk) <= Backups(staged)
    requires forall p | p in Backups(staged) :: p.Temporary? && p !in job.before
    requires after == disk - {staged[index].backup.value}
    ensures var updated := staged[index := staged[index].(backup := None)];
      job.Replaced(after) && Backups(updated) <= Backups(staged) && job.Extra(after) <= Backups(updated)
    ensures job.Entries(staged) && BackupsPresent(disk, staged) ==>
      var updated := staged[index := staged[index].(backup := None)];
      job.Entries(updated) && BackupsPresent(after, updated)
  {
    var backup := staged[index].backup.value;
    var updated := staged[index := staged[index].(backup := None)];
    assert backup in Backups(staged);
    if job.Entries(staged) {
      forall i | 0 <= i < |staged| && i != index ensures staged[i].backup != Some(backup) {
        assert staged[i].backup == Some(backup) ==> backup in Own(staged[i]);
        assert backup in Own(staged[index]);
      }
      assert job.Entry(staged[index], job.catalogs[index]);
      EntriesUpdate(job, staged, index, staged[index].(backup := None), {});
    }
    UntouchedFrame(job, disk, after, {backup});
    forall p | p in Backups(staged) && p != backup ensures p in Backups(updated) {
      var i :| 0 <= i < |staged| && staged[i].backup == Some(p);
      assert updated[i] == staged[i];
    }
    forall p | p in Backups(updated) ensures p in Backups(staged) {
      var i :| 0 <= i < |updated| && updated[i].backup == Some(p);
      assert updated[i] == staged[i];
    }
  }

  // ----- whole runs

  lemma KeptThenReplaced(job: Job, log: seq<Disk>, middle: seq<Disk>, trace: seq<Disk>)
    requires job.KeptSince(log, middle) && job.SafeRun(middle, trace, |middle|)
    ensures job.SafeRun(log, trace, |middle|)
  {
    forall k | |log| <= k < |trace| && k < |middle| ensures job.Preserved(trace[k]) {
      assert trace[k] == middle[k];
    }
  }

  lemma KeptNothing(job: Job, log: seq<Disk>)
    ensures job.KeptSince(log, log)
  {
  }

  lemma KeptTwice(job: Job, log: seq<Disk>, middle: seq<Disk>, trace: seq<Disk>)
    requires job.KeptSince(log, middle) && job.KeptSince(middle, trace)
    ensures job.KeptSince(log, trace)
  {
    forall k | |log| <= k < |trace| ensures job.Preserved(trace[k]) {
      if k < |middle| {
        assert trace[k] == middle[k];
      }
    }
  }

  lemma KeptThenSafe(job: Job, log: seq<Disk>, middle: seq<Disk>, trace: seq<Disk>, cut: nat)
    requires job.KeptSince(log, middle) && job.SafeRun(middle, trace, cut) && |middle| <= cut
    ensures job.SafeRun(log, trace, cut)
  {
    forall k | |log| <= k < |trace| && k < |middle| ensures job.Preserved(trace[k]) {
      assert trace[k] == middle[k];
    }
  }

  /** The old directory, but for a leaked empty file. */
  ghost predicate OldButFor(job: Job, disk: Disk, stray: set<Path>) {
    && AtMostOne(stray) && (forall p | p in stray :: p.Temporary? && p !in job.before)
    && disk == job.before + map p | p in stray :: Regular("")
  }

  lemma OnlyTheLeak(job: Job, disk: Disk, stray: set<Path>)
    requires job.Untouched(disk) && job.Extra(disk) <= stray && AtMostOne(stray)
    requires forall p | p in stray :: p.Temporary? && p !in job.before && p in disk && disk[p] == Regular("")
    requires forall p | p in job.targets :: AsBefore(p, disk, job.before)
    ensures OldButFor(job, disk, stray)
  {
    forall p | p in disk ensures p in job.before || p in stray {
      assert p in job.before || p in job.targets || p in job.Extra(disk);
    }
  }

  lemma NothingStaged(job: Job)
    requires job.Valid()
    ensures job.Held(job.before, [], {}) && job.Ready(job.before, []) && job.Pending(job.before, [], 0)
    ensures job.Preserved(job.before)
  {
    SecuredPreserves(job, job.before, []);
  }

  /** While files are only being staged every target is as it was. */
  lemma StagingKeepsTargets(job: Job, disk: Disk, staged: seq<StagedCatalog>)
    requires job.Valid() && job.Entries(staged) && job.Secured(disk, staged)
    requires job.Pending(disk, staged, |staged|) && AllStaged(staged, 0)
    ensures job.AllOld(disk) && Backups(staged) == {}
  {
    forall i | 0 <= i < |job.catalogs| ensures AsBefore(Target(job.catalogs[i]), disk, job.before) {
      if i < |staged| {
        HomeKind(job, staged, i);
      }
    }
  }

  lemma NextTarget(job: Job, disk: Disk, staged: seq<StagedCatalog>)
    requires job.Secured(disk, staged) && |staged| < |job.catalogs|
    ensures AsBefore(Target(job.catalogs[|staged|]), disk, job.before)
  {
  }

  lemma TargetsOfCatalogs(job: Job, disk: Disk)
    requires job.targets == Targets(job.catalogs) && job.AllOld(disk)
    ensures forall p | p in job.targets :: AsBefore(p, disk, job.before)
  {
  }
}
