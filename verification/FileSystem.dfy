/** A directory whose every operation may fail without effect.

    Which operations fail, and which random suffixes are drawn, is fixed in
    advance by two arbitrary functions of a clock that ticks once an operation.
    A statement proved for all of them is proved for every failure schedule. */
module FileSystem {
  import opened Wrappers

  type Bytes = string

  /** Canonical file names and the hidden names drawn for temporary files never
      coincide: the latter start with a reserved dotted prefix. */
  datatype Path = Artifact(name: string) | Temporary(suffix: nat)

  /** A regular file with its bytes, or a directory, link or device. */
  datatype Entry = Regular(bytes: Bytes) | Irregular

  type Disk = map<Path, Entry>

  /** What befalls one operation; a write may also stop after `count` bytes, or
      report an error after all of them. */
  datatype Fate = Succeeds | Fails | Cut(count: nat)

  datatype Operation = Prepare | Look | Create | Chmod | Write | Sync | Close | Rename(to: Path) | Remove

  /** One operation that was asked for, the file it was about, and whether it
      failed. An operation fails by its fate, and creation also for want of a name. */
  datatype Event = Event(operation: Operation, path: Option<Path>, failed: bool)

  /** Nothing has failed from event number `from` on. */
  ghost predicate Smooth(history: seq<Event>, from: nat) {
    forall i | from <= i < |history| :: !history[i].failed
  }

  lemma SmoothTwice(log: seq<Event>, middle: seq<Event>, history: seq<Event>)
    requires log <= middle <= history && Smooth(middle, |log|) && Smooth(history, |middle|)
    ensures Smooth(history, |log|)
  {
    forall i | |log| <= i < |history| ensures !history[i].failed {
      assert i < |middle| ==> history[i] == middle[i];
    }
  }

  lemma SmoothNothing(history: seq<Event>)
    ensures Smooth(history, |history|)
  {
  }

  datatype Lookup = Found(entry: Entry) | Missing | Broken

  datatype Removal = Removed | WasMissing | NotRemoved

  const MAXIMUM_NAME_ATTEMPTS: nat := 100

  /** Every name drawn from tick `from` on, for as long as a caller tries, is taken. */
  ghost predicate Exhausted(suffixes: nat -> nat, from: nat, taken: Disk) {
    forall k: nat | from <= k < from + MAXIMUM_NAME_ATTEMPTS :: Temporary(suffixes(k)) in taken
  }

  /** Some time after tick `from` a hundred names in a row were already taken. */
  ghost predicate NamesRanOut(suffixes: nat -> nat, trace: seq<Disk>, from: nat) {
    exists t: nat, d | from <= t && d in trace :: Exhausted(suffixes, t, d)
  }

  lemma RanOutBefore(suffixes: nat -> nat, log: seq<Disk>, trace: seq<Disk>, from: nat, later: nat)
    requires log <= trace && from <= later && NamesRanOut(suffixes, log, later)
    ensures NamesRanOut(suffixes, trace, from)
  {
    var t: nat, d :| later <= t && d in log && Exhausted(suffixes, t, d);
    var k :| 0 <= k < |log| && log[k] == d;
    assert trace[k] == d;
  }

  class Directory {
    const fates: nat -> Fate
    const suffixes: nat -> nat
    var clock: nat
    var disk: Disk
    /** Every state of the directory so far, one an operation. */
    ghost var trace: seq<Disk>
    /** Every operation so far. */
    ghost var history: seq<Event>

    constructor (fates: nat -> Fate, suffixes: nat -> nat, disk: Disk)
      ensures this.fates == fates && this.suffixes == suffixes && this.disk == disk
      ensures clock == 0 && trace == [disk] && history == []
    {
      this.fates, this.suffixes, this.disk, this.clock := fates, suffixes, disk, 0;
      this.trace, this.history := [disk], [];
    }

    /** No operation fails from tick `from` up to now. */
    ghost predicate QuietSince(from: nat)
      reads this`clock
    {
      forall k: nat | from <= k < clock :: fates(k).Succeeds?
    }

    method Lstat(path: Path) returns (r: Lookup)
      modifies this
      ensures clock == old(clock) + 1 && disk == old(disk) && trace == old(trace) + [disk]
      ensures history == old(history) + [Event(Look, Some(path), r.Broken?)]
      ensures r.Found? ==> path in disk && r.entry == disk[path]
      ensures r.Missing? ==> path !in disk
      ensures fates(old(clock)).Succeeds? <==> !r.Broken?
    {
      history := history + [Event(Look, Some(path), fates(clock) != Succeeds)];
      if fates(clock) != Succeeds {
        r := Broken;
      } else if path in disk {
        r := Found(disk[path]);
      } else {
        r := Missing;
      }
      clock, trace := clock + 1, trace + [disk];
    }

    /** Creates an empty file under a name nobody holds, trying again on a clash. */
    method CreateTemp() returns (r: Option<Path>)
      modifies this
      ensures old(clock) <= clock && trace == old(trace) + [disk]
      ensures history == old(history) + [Event(Create, r, r.None?)]
      ensures r.None? ==> disk == old(disk)
      ensures r.Some? ==> r.value.Temporary? && r.value !in old(disk)
      ensures r.Some? ==> disk == old(disk)[r.value := Regular("")]
      ensures r.None? && QuietSince(old(clock)) ==> Exhausted(suffixes, old(clock), disk)
      ensures fates(old(clock)).Succeeds? && Temporary(suffixes(old(clock))) !in old(disk) ==>
        r.Some? && clock == old(clock) + 1
    {
      r := None;
      for attempt := 0 to MAXIMUM_NAME_ATTEMPTS
        invariant old(clock) <= clock && trace == old(trace) && disk == old(disk) && history == old(history)
        invariant r.None?
        invariant clock == old(clock) + attempt
        invariant attempt > 0 ==> Temporary(suffixes(old(clock))) in disk
        invariant forall k: nat | old(clock) <= k < clock :: Temporary(suffixes(k)) in disk
      {
        var path := Temporary(suffixes(clock));
        var fate := fates(clock);
        clock := clock + 1;
        if fate != Succeeds {
          break;
        }
        if path !in disk {
          disk := disk[path := Regular("")];
          r := Some(path);
          break;
        }
      }
      trace, history := trace + [disk], history + [Event(Create, r, r.None?)];
    }

    /** Writes at the start of an empty file; the count is what reached the disk. */
    method Write(path: Path, bytes: Bytes) returns (count: nat, ok: bool)
      requires path in disk
      modifies this
      ensures clock == old(clock) + 1 && trace == old(trace) + [disk]
      ensures history == old(history) + [Event(Operation.Write, Some(path), !ok || count < |bytes|)]
      ensures count <= |bytes| && disk == old(disk)[path := Regular(bytes[..count])]
      ensures fates(old(clock)).Succeeds? <==> ok && count == |bytes|
    {
      match fates(clock) {
        case Succeeds => count, ok := |bytes|, true;
        case Fails => count, ok := 0, false;
        case Cut(k) => count, ok := if k < |bytes| then k else |bytes|, k < |bytes|;
      }
      disk := disk[path := Regular(bytes[..count])];
      history := history + [Event(Operation.Write, Some(path), !ok || count < |bytes|)];
      clock, trace := clock + 1, trace + [disk];
    }

    /** Making the directory, and Chmod, Sync and Close of an open file: they may
        fail but change no bytes. */
    method Settle(operation: Operation, path: Option<Path>) returns (ok: bool)
      modifies this
      ensures clock == old(clock) + 1 && disk == old(disk) && trace == old(trace) + [disk]
      ensures history == old(history) + [Event(operation, path, !ok)]
      ensures fates(old(clock)).Succeeds? <==> ok
    {
      ok := fates(clock).Succeeds?;
      history := history + [Event(operation, path, !ok)];
      clock, trace := clock + 1, trace + [disk];
    }

    /** Moves an entry, replacing a regular file that is already there. */
    method Rename(from: Path, to: Path) returns (ok: bool)
      modifies this
      ensures clock == old(clock) + 1 && trace == old(trace) + [disk]
      ensures history == old(history) + [Event(Operation.Rename(to), Some(from), fates(old(clock)) != Succeeds)]
      ensures ok ==> from in old(disk) && disk == (old(disk) - {from})[to := old(disk)[from]]
      ensures !ok ==> disk == old(disk)
      ensures ok ==> fates(old(clock)).Succeeds?
      ensures fates(old(clock)).Succeeds? && from in old(disk) && (to in old(disk) ==> old(disk)[to].Regular?) ==> ok
    {
      history := history + [Event(Operation.Rename(to), Some(from), fates(clock) != Succeeds)];
      ok := fates(clock).Succeeds? && from in disk && (to in disk ==> disk[to].Regular?);
      if ok {
        disk := (disk - {from})[to := disk[from]];
      }
      clock, trace := clock + 1, trace + [disk];
    }

    method Remove(path: Path) returns (r: Removal)
      modifies this
      ensures clock == old(clock) + 1 && trace == old(trace) + [disk]
      ensures history == old(history) + [Event(Operation.Remove, Some(path), r.NotRemoved?)]
      ensures r.Removed? ==> path in old(disk) && disk == old(disk) - {path}
      ensures r.WasMissing? ==> path !in old(disk)
      ensures !r.Removed? ==> disk == old(disk)
      ensures fates(old(clock)).Succeeds? <==> !r.NotRemoved?
    {
      history := history + [Event(Operation.Remove, Some(path), fates(clock) != Succeeds)];
      if fates(clock) != Succeeds {
        r := NotRemoved;
      } else if path in disk {
        disk := disk - {path};
        r := Removed;
      } else {
        r := WasMissing;
      }
      clock, trace := clock + 1, trace + [disk];
    }
  }
}
