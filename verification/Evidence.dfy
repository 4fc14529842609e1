/** Evidence records and the on-disk stores of records and reports. A stored
    file is never replaced; every file operation may fail, as an arbitrary
    schedule decides. */
module Evidence {
  import opened Wrappers
  import opened Reviews
  import opened MutationReport
  import opened Acceptance
  import opened WriteOnce

  const SCHEMA_VERSION := 1

  datatype Record = Record(
    schemaVersion: int, repository: string, moduleDirectory: string, packageDirectory: string, gate: string,
    inputDigest: string, verifierDigest: string, result: string, reportDigest: string,
    environment: map<string, string>, completedAt: nat)

  /** Checks on single strings and the hash functions, left uninterpreted. */
  datatype Rules = Rules(
    gate: string -> bool, digest: string -> bool, blank: string -> bool, historical: string -> bool,
    syntax: Syntax, semanticVerifier: string, hash: Report -> string, legacyHash: Report -> string)

  predicate ValidRecord(record: Record, rules: Rules) {
    && record.schemaVersion == SCHEMA_VERSION && record.repository != "" && record.moduleDirectory != ""
    && rules.gate(record.gate)
    && rules.digest(record.inputDigest) && rules.digest(record.verifierDigest) && rules.digest(record.reportDigest)
    && record.result in {"passed", "advisory", "not_applicable", "failed"}
    && record.completedAt != 0
    && forall key | key in record.environment :: !rules.blank(key)
  }

  /** Two records that say the same; completion time does not matter. */
  predicate Equivalent(left: Record, right: Record) {
    left.(completedAt := 0) == right.(completedAt := 0)
  }

  lemma EquivalentIsEquivalence()
    ensures forall a :: Equivalent(a, a)
    ensures forall a, b :: Equivalent(a, b) ==> Equivalent(b, a)
    ensures forall a, b, c :: Equivalent(a, b) && Equivalent(b, c) ==> Equivalent(a, c)
  {
  }

  /** Reports match if both are valid under the review and have one digest. */
  ghost predicate SameDigest(left: Report, right: Report, review: Option<Review>, rules: Rules) {
    && Accepted(left, review, rules.syntax) && Accepted(right, review, rules.syntax)
    && rules.hash(Canonical(left)) == rules.hash(Canonical(right))
  }

  // ----- the two stores as write-once destinations

  /** Records are judged by everyone alike. */
  datatype NoContext = NoContext

  /** The record store: what is found must parse, and say the same. */
  ghost function RecordComparison(rules: Rules): Comparison<Record, NoContext, Record> {
    Comparison((record: Record, _: NoContext) => ValidRecord(record, rules),
               (record: Record) => record.(completedAt := 0))
  }

  /** The report store: what is found must be valid under the writer's own
      review, and have the digest of the writer's report. */
  ghost function ReportComparison(rules: Rules): Comparison<Report, Option<Review>, string> {
    Comparison((report: Report, review: Option<Review>) => Accepted(report, review, rules.syntax),
      (report: Report) => rules.hash(Canonical(report)))
  }

  /** Over every interleaving, writers of one record file that succeed hold
      equivalent records, and one that meets a conflict holds another. */
  lemma RecordWritersAgree(run: seq<State<Record, NoContext>>, k: nat, i: nat, j: nat, rules: Rules)
    requires Run(run, RecordComparison(rules)) && k < |run| && i < |run[k].writers| && j < |run[k].writers|
    requires WriterSucceeds(run[k].writers[i])
    ensures WriterSucceeds(run[k].writers[j]) ==> Equivalent(run[k].writers[i].record, run[k].writers[j].record)
    ensures Decision(run[k].writers[j]) == Some(Conflict) ==>
      !Equivalent(run[k].writers[i].record, run[k].writers[j].record)
  {
    assert run[k].writers[i].context == NoContext == run[k].writers[j].context;
    SuccessesAgree(run, k, i, j, RecordComparison(rules));
  }

  /** The same for the report store, where each writer judges by its own review:
      those that succeed hold reports of one canonical digest, and under a review
      under which one succeeds a conflict means another digest. */
  lemma ReportWritersAgree(run: seq<State<Report, Option<Review>>>, k: nat, i: nat, j: nat, rules: Rules)
    requires Run(run, ReportComparison(rules)) && k < |run| && i < |run[k].writers| && j < |run[k].writers|
    requires WriterSucceeds(run[k].writers[i])
    ensures var mine, other := run[k].writers[i], run[k].writers[j];
      && (WriterSucceeds(other) ==> rules.hash(Canonical(mine.record)) == rules.hash(Canonical(other.record)))
      && (Decision(other) == Some(Conflict) && other.context == mine.context
        ==> !SameDigest(mine.record, other.record, mine.context, rules))
  {
    SuccessesAgree(run, k, i, j, ReportComparison(rules));
  }

  /** What a report file holds when writers are done with it is valid under the
      review of each that succeeded. */
  lemma ReportOnFileIsValid(run: seq<State<Report, Option<Review>>>, k: nat, i: nat, rules: Rules)
    requires Run(run, ReportComparison(rules)) && k < |run| && i < |run[k].writers|
    requires WriterSucceeds(run[k].writers[i])
    ensures run[k].destination.Some? && run[k].destination.value.Whole?
    ensures Accepted(run[k].destination.value.record, run[k].writers[i].context, rules.syntax)
  {
    SuccessMatches(run, k, i, ReportComparison(rules));
  }

  function Lookup(environment: map<string, string>, key: string): string {
    if key in environment then environment[key] else ""
  }

  datatype Loaded<T> = Absent | Present(value: T) | Broken

  /** Where a record is filed: its path holds the gate and the input digest. */
  datatype Filing = Filing(gate: string, inputDigest: string)

  /** What is filed; `None` is a file that does not parse. */
  type Records = map<Filing, Option<Record>>

  type Reports = map<string, Option<Report>>

  ghost predicate Grows<K, T>(before: map<K, Option<T>>, after: map<K, Option<T>>) {
    forall key | key in before :: key in after && after[key] == before[key]
  }

  function Place(record: Record): Filing {
    Filing(record.gate, record.inputDigest)
  }

  /** What is on file under a digest, if anything, is a report that the review
      accepts, of the same canonical digest. */
  ghost predicate Agrees(reports: Reports, digest: string, report: Report, review: Option<Review>, rules: Rules) {
    digest in reports ==> reports[digest].Some? && SameDigest(reports[digest].value, report, review, rules)
  }

  /** What is on file is a valid record that says the same. */
  predicate Confirms(file: Option<Record>, record: Record, rules: Rules) {
    file.Some? && ValidRecord(file.value, rules) && Equivalent(file.value, record)
  }

  class Store {
    const rules: Rules
    const fates: nat -> bool
    var clock: nat
    var records: Records
    var reports: Reports

    constructor (rules: Rules, fates: nat -> bool, records: Records, reports: Reports)
      ensures this.rules == rules && this.records == records && this.reports == reports
    {
      this.rules, this.fates, this.records, this.reports, this.clock := rules, fates, records, reports, 0;
    }

    /** No file operation has failed from tick `from` up to now. */
    ghost predicate QuietSince(from: nat)
      reads this`clock
    {
      forall k: nat | from <= k < clock :: fates(k)
    }

    method Attempt() returns (ok: bool)
      modifies this`clock
      ensures clock == old(clock) + 1 && ok == fates(old(clock))
    {
      ok := fates(clock);
      clock := clock + 1;
    }

    /** Loads the record filed under a gate and an input digest. */
    method LoadRecord(gate: string, inputDigest: string) returns (r: Loaded<Record>)
      modifies this`clock
      ensures old(clock) <= clock
      ensures QuietSince(old(clock)) && r.Broken? ==>
        || !rules.gate(gate) || !rules.digest(inputDigest)
        || (Filing(gate, inputDigest) in records && (records[Filing(gate, inputDigest)].None? ||
              var record := records[Filing(gate, inputDigest)].value;
              !ValidRecord(record, rules) || record.gate != gate || record.inputDigest != inputDigest))
      ensures r.Absent? ==> rules.digest(inputDigest) && Filing(gate, inputDigest) !in records
      ensures r.Present? ==>
        && Filing(gate, inputDigest) in records && records[Filing(gate, inputDigest)] == Some(r.value)
        && ValidRecord(r.value, rules)
        && r.value.gate == gate && r.value.inputDigest == inputDigest
    {
      if !rules.gate(gate) || !rules.digest(inputDigest) {
        return Broken;
      }
      var read := Attempt();
      if !read {
        return Broken;
      }
      if Filing(gate, inputDigest) !in records {
        return Absent;
      }
      var file := records[Filing(gate, inputDigest)];
      if file.None? || !ValidRecord(file.value, rules)
        || file.value.gate != gate || file.value.inputDigest != inputDigest
      {
        return Broken;
      }
      r := Present(file.value);
    }

    /** Files a record, or finds an equivalent one already there. */
    method StoreRecord(record: Record) returns (stored: bool)
      modifies this`clock, this`records
      ensures Grows(old(records), records)
      ensures stored ==>
        && ValidRecord(record, rules)
        && Place(record) in records && records[Place(record)].Some?
        && Equivalent(records[Place(record)].value, record)
        && ValidRecord(records[Place(record)].value, rules)
      ensures !stored || Place(record) in old(records) ==> records == old(records)
      ensures stored && Place(record) !in old(records) ==> records == old(records)[Place(record) := Some(record)]
      ensures stored ==> record.result in {"passed", "advisory", "not_applicable", "failed"}
      ensures old(clock) <= clock
      ensures stored <==>
        && QuietSince(old(clock)) && ValidRecord(record, rules)
        && (Place(record) in old(records) ==> Confirms(old(records)[Place(record)], record, rules))
    {
      if !ValidRecord(record, rules) {
        return false;
      }
      stored := WriteTemporary();
      if !stored {
        return;
      }
      if Place(record) !in records {
        records := records[Place(record) := Some(record)];
        return true;
      }
      var read := Attempt();
      var existing := records[Place(record)];
      stored := read && existing.Some? && ValidRecord(existing.value, rules) && Equivalent(existing.value, record);
    }

    /** Creates, writes, syncs, closes and links a temporary file. */
    method WriteTemporary() returns (ok: bool)
      modifies this`clock
      ensures old(clock) <= clock && (QuietSince(old(clock)) <==> ok)
    {
      var operations := 5;
      while operations > 0
        invariant old(clock) <= clock && QuietSince(old(clock))
      {
        ok := Attempt();
        if !ok {
          return;
        }
        operations := operations - 1;
      }
      ok := true;
    }

    /** Loads a report and applies the current review to it. */
    method LoadReport(inputDigest: string, review: Option<Review>) returns (r: Option<(Report, Summary)>)
      modifies this`clock
      ensures old(clock) <= clock
      ensures QuietSince(old(clock)) && r.None? ==>
        || !rules.digest(inputDigest) || inputDigest !in reports || reports[inputDigest].None?
        || Validated(reports[inputDigest].value, review, rules).None?
      ensures r.Some? ==>
        && inputDigest in reports && reports[inputDigest] == Some(r.value.0)
        && Validated(r.value.0, review, rules) == Some(r.value.1)
    {
      r := None;
      if !rules.digest(inputDigest) {
        return;
      }
      var read := Attempt();
      if read && inputDigest in reports && reports[inputDigest].Some? {
        var report := reports[inputDigest].value;
        var result := ValidateReport(report, review, rules.syntax, rules.hash);
        if result.Ok? {
          r := Some((report, result.value));
        }
      }
    }

    /** Files a report valid under the review, or finds one with the same digest. */
    method StoreReport(inputDigest: string, report: Report, review: Option<Review>) returns (r: Option<Summary>)
      modifies this`clock, this`reports
      ensures Grows(old(reports), reports)
      ensures r.Some? ==>
        && rules.digest(inputDigest) && inputDigest in reports && reports[inputDigest].Some?
        && Validated(reports[inputDigest].value, review, rules) == r
        && SameDigest(reports[inputDigest].value, report, review, rules)
      ensures r.None? || inputDigest in old(reports) ==> reports == old(reports)
      ensures r.Some? && inputDigest !in old(reports) ==> reports == old(reports)[inputDigest := Some(report)]
      ensures old(clock) <= clock
      ensures r.Some? <==>
        && QuietSince(old(clock)) && rules.digest(inputDigest) && Accepted(report, review, rules.syntax)
        && Agrees(old(reports), inputDigest, report, review, rules)
    {
      hide Canonical, Mutants, CountStatus, AcceptedMutants, NamesDistinct, ValidExecution;
      r := None;
      if !rules.digest(inputDigest) {
        return;
      }
      var result := ValidateReport(report, review, rules.syntax, rules.hash);
      if result.Err? {
        return;
      }
      var linked := WriteTemporary();
      if !linked {
        return;
      }
      if inputDigest !in reports {
        reports := reports[inputDigest := Some(report)];
        return Some(result.value);
      }
      var read := Attempt();
      if read && reports[inputDigest].Some? {
        var existing := ValidateReport(reports[inputDigest].value, review, rules.syntax, rules.hash);
        if existing.Ok? && existing.value.digest == result.value.digest {
          r := Some(existing.value);
        }
      }
    }
  }

  /** The summary of a report valid under a review. */
  ghost function Validated(report: Report, review: Option<Review>, rules: Rules): Option<Summary> {
    if !Accepted(report, review, rules.syntax) then None
    else
      var mutants := Mutants(report.files.value);
      Some(Summary(rules.hash(Canonical(report)), |mutants|,
                   CountStatus(mutants, "KILLED"), CountStatus(mutants, "LIVED")))
  }

  // ----- reuse

  datatype Reuse = Miss | Hit(summary: Summary) | Unusable

  datatype Request = Request(repository: string, moduleDirectory: string, packageDirectory: string, inputDigest: string)

  predicate ApplicableVerifier(record: Record, rules: Rules) {
    record.verifierDigest == rules.semanticVerifier || (
      && rules.historical(record.verifierDigest)
      && Lookup(record.environment, "evidence_origin") == "approved_legacy_checkpoint"
      && Lookup(record.environment, "legacy_package_path_compatibility") == record.inputDigest)
  }

  predicate Requested(record: Record, request: Request, rules: Rules) {
    && record.repository == request.repository && record.moduleDirectory == request.moduleDirectory
    && record.packageDirectory == request.packageDirectory && record.result == "passed"
    && ApplicableVerifier(record, rules)
  }

  /** Every scoped candidate was reviewed for the architecture the record was made on. */
  predicate SameArchitecture(record: Record, review: Option<Review>) {
    review.None? || forall i | 0 <= i < |review.value.mutations| && review.value.mutations[i].goarchs.Some? ::
      Lookup(record.environment, "GOARCH") == review.value.architecture
  }

  /** The decision, were no file operation to fail: evidence counts only if its
      record is for this very package and its report is valid now. */
  ghost function Decide(records: Records, reports: Reports, request: Request, review: Option<Review>,
                        rules: Rules): Reuse {
    var input := request.inputDigest;
    if (review.Some? && !ValidExecution(review.value, rules.syntax)) || !rules.gate("mutation") || !rules.digest(input)
      then Unusable
    else if Filing("mutation", input) !in records then Miss
    else if records[Filing("mutation", input)].None? then Unusable
    else
      var record := records[Filing("mutation", input)].value;
      if !ValidRecord(record, rules) || record.gate != "mutation" || record.inputDigest != input then Unusable
      else if !Requested(record, request, rules) || !SameArchitecture(record, review) then Unusable
      else if input !in reports || reports[input].None? then Unusable
      else
        var report := reports[input].value;
        match Validated(report, review, rules)
        case None => Unusable
        case Some(summary) =>
          if summary.digest == record.reportDigest || rules.legacyHash(report) == record.reportDigest
            then Hit(summary) else Unusable
  }

  /** Decides whether stored evidence can stand in for an execution. The answer
      is the decision, or a refusal when a file operation failed. */
  method ReuseWithReview(store: Store, request: Request, review: Option<Review>) returns (r: Reuse)
    modifies store`clock
    ensures old(store.clock) <= store.clock
    ensures r != Unusable || store.QuietSince(old(store.clock)) ==>
      r == Decide(store.records, store.reports, request, review, store.rules)
  {
    if review.Some? {
      var valid := ValidateExecution(review.value, store.rules.syntax);
      if !valid {
        return Unusable;
      }
    }
    var loaded := store.LoadRecord("mutation", request.inputDigest);
    match loaded {
      case Absent =>
        return if store.rules.gate("mutation") then Miss else Unusable;
      case Broken =>
        return Unusable;
      case Present(record) =>
        if !Requested(record, request, store.rules) || !SameArchitecture(record, review) {
          return Unusable;
        }
        var report := store.LoadReport(request.inputDigest, review);
        if report.None? {
          return Unusable;
        }
        var (data, summary) := report.value;
        if summary.digest != record.reportDigest && store.rules.legacyHash(data) != record.reportDigest {
          return Unusable;
        }
        r := Hit(summary);
    }
  }

  /** What the environment of a record says of a key is this text. */
  ghost predicate Says(record: Record, key: string, text: string) {
    if key in record.environment then record.environment[key] == text else text == ""
  }

  /** The record on file is whole, passed, for this very package and inputs, made
      by an applicable verifier, and on the architecture any scoped candidate asks for. */
  ghost predicate Vouches(record: Record, request: Request, review: Option<Review>, rules: Rules) {
    && record.schemaVersion == 1 && record.gate == "mutation" && record.result == "passed" && record.completedAt != 0
    && record.repository == request.repository && record.repository != ""
    && record.moduleDirectory == request.moduleDirectory && record.moduleDirectory != ""
    && record.packageDirectory == request.packageDirectory && record.inputDigest == request.inputDigest
    && rules.gate("mutation") && rules.digest(record.inputDigest) && rules.digest(record.reportDigest)
    && rules.digest(record.verifierDigest) && (forall key | key in record.environment :: !rules.blank(key))
    && (record.verifierDigest != rules.semanticVerifier ==>
          && rules.historical(record.verifierDigest)
          && Says(record, "evidence_origin", "approved_legacy_checkpoint")
          && Says(record, "legacy_package_path_compatibility", record.inputDigest))
    && (review.Some? ==> forall c | c in review.value.mutations && c.goarchs.Some? ::
          Says(record, "GOARCH", review.value.architecture))
  }

  /** Evidence is reused exactly if the record on file vouches for the package and
      binds the digest of a report on file that the review accepts; the counts
      are then those of the report itself. */
  lemma HitIsExact(records: Records, reports: Reports, request: Request, review: Option<Review>, rules: Rules,
                   summary: Summary)
    ensures Decide(records, reports, request, review, rules) == Hit(summary) <==>
      exists record, report | Vouches(record, request, review, rules) && Accepted(report, review, rules.syntax) ::
        && Filing("mutation", request.inputDigest) in records
        && records[Filing("mutation", request.inputDigest)] == Some(record)
        && request.inputDigest in reports && reports[request.inputDigest] == Some(report)
        && record.reportDigest in {rules.hash(Canonical(report)), rules.legacyHash(report)}
        && summary == Summary(rules.hash(Canonical(report)), |PlacesIn(report.files.value)|,
                              |PlacesOf(report.files.value, "KILLED")|, |PlacesOf(report.files.value, "LIVED")|)
  {
    hide Accepted, Canonical, PlacesIn, PlacesOf, Mutants, CountStatus, ValidExecution;
    var input := request.inputDigest;
    if Filing("mutation", input) in records && records[Filing("mutation", input)].Some? {
      VouchesIsExact(records[Filing("mutation", input)].value, request, review, rules);
    }
    if input in reports && reports[input].Some? && Accepted(reports[input].value, review, rules.syntax) {
      AcceptedHasFiles(reports[input].value, review, rules.syntax);
      CountsArePlaces(reports[input].value.files.value, "KILLED");
      CountsArePlaces(reports[input].value.files.value, "LIVED");
    }
  }

  lemma AcceptedHasFiles(report: Report, review: Option<Review>, syntax: Syntax)
    requires Accepted(report, review, syntax)
    ensures report.files.Some? && (review.Some? ==> ValidExecution(review.value, syntax))
  {
  }

  lemma VouchesIsExact(record: Record, request: Request, review: Option<Review>, rules: Rules)
    ensures Vouches(record, request, review, rules) <==>
      && ValidRecord(record, rules) && record.gate == "mutation" && record.inputDigest == request.inputDigest
      && Requested(record, request, rules) && SameArchitecture(record, review)
  {
    if review.Some? {
      var mutations := review.value.mutations;
      if SameArchitecture(record, review) {
        forall c | c in mutations && c.goarchs.Some? ensures Says(record, "GOARCH", review.value.architecture) {
          var i :| 0 <= i < |mutations| && mutations[i] == c;
        }
      }
      if Vouches(record, request, review, rules) {
        forall i | 0 <= i < |mutations| && mutations[i].goarchs.Some?
          ensures Lookup(record.environment, "GOARCH") == review.value.architecture
        {
          assert mutations[i] in mutations;
        }
      }
    }
  }

  /** Nothing is on file for the inputs: the one case in which the tool is to run. */
  lemma MissIsExact(records: Records, reports: Reports, request: Request, review: Option<Review>, rules: Rules)
    ensures Decide(records, reports, request, review, rules) == Miss <==>
      && Filing("mutation", request.inputDigest) !in records
      && rules.gate("mutation") && rules.digest(request.inputDigest)
      && (review.Some? ==> ValidExecution(review.value, rules.syntax))
  {
  }

  /** A hit stands on a report that is valid under the review in force now. */
  lemma HitIsValidated(records: Records, reports: Reports, request: Request, review: Option<Review>, rules: Rules)
    requires Decide(records, reports, request, review, rules).Hit?
    ensures var input := request.inputDigest;
      && input in reports && reports[input].Some? && Accepted(reports[input].value, review, rules.syntax)
      && (review.None? ==> CountStatus(Mutants(reports[input].value.files.value), "LIVED") == 0)
  {
    var report := reports[request.inputDigest].value;
    if review.None? {
      NoReviewNoSurvivors(Mutants(report.files.value));
    }
  }

  lemma {:induction false} NoReviewNoSurvivors(mutants: seq<Mutant>)
    requires LivedIdentities(mutants) == {}
    ensures CountStatus(mutants, "LIVED") == 0
  {
    if mutants == [] {
    } else {
      var front, last := mutants[..|mutants| - 1], mutants[|mutants| - 1];
      assert last.mutation.status == "LIVED" ==> IdentityOf(last) in LivedIdentities(mutants);
      assert LivedIdentities(front) <= LivedIdentities(mutants);
      NoReviewNoSurvivors(front);
    }
  }

  /** A hit stays a hit, with the same counts, whatever else is filed later. */
  lemma HitIsStable(records: Records, reports: Reports, records': Records, reports': Reports,
                    request: Request, review: Option<Review>, rules: Rules)
    requires Grows(records, records') && Grows(reports, reports')
    requires Decide(records, reports, request, review, rules).Hit?
    ensures Decide(records', reports', request, review, rules) == Decide(records, reports, request, review, rules)
  {
  }
}
