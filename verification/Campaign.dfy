/** A mutation campaign: package by package, reuse stored evidence or run the
    tool and store what it proved. */
module Campaign {
  import opened Wrappers
  import opened Sorting
  import opened Text
  import opened Reviews
  import opened MutationReport
  import opened Acceptance
  import opened Evidence
  import opened Selections

  /** What a package's evidence is bound to. */
  datatype Inputs = Inputs(digest: string, source: string)

  datatype Exit = Clean | EfficacyThreshold | Crashed

  datatype Written = NotWritten | Unreadable | Written(report: Option<Report>)

  /** One run of the mutation tool. */
  datatype Execution = Execution(exit: Exit, written: Written, confirmsNoResults: bool)

  datatype Policy = Policy(
    repository: string, moduleDirectory: string, packages: seq<string>, goarch: string,
    environment: map<string, string>, reviews: seq<Review>, version: string, verifier: string)

  datatype Event = Reused(summary: Summary) | Executed(summary: Summary)

  datatype Failure =
    | InputsUnavailable | ReviewRefused | EvidenceUnusable | PreparationFailed | ToolFailed | ReportMissing
    | ReportRejected | SelectionChanged | InputsChanged | StoreFailed

  const NO_FILES: Report := Report("", None, Some([]), Counters(None, None, None, None, None, None, None), None)

  /** The review in force for a package with the given source. */
  ghost function ReviewFor(policy: Policy, package: string, source: string,
                           syntax: Syntax): Result<Option<Review>, Refusal> {
    if k: nat :| FirstFor(policy.reviews, k, policy.moduleDirectory, package) then
      Applicable(policy.reviews[k], source, policy.version, policy.verifier, policy.goarch, syntax)
    else Ok(None)
  }

  lemma StableSince(request: Request, review: Option<Review>, records: Records, reports: Reports,
                    records': Records, reports': Reports, rules: Rules)
    requires Grows(records, records') && Grows(reports, reports')
    ensures Decide(records, reports, request, review, rules).Hit? ==>
      Decide(records', reports', request, review, rules) == Decide(records, reports, request, review, rules)
  {
    if Decide(records, reports, request, review, rules).Hit? {
      HitIsStable(records, reports, records', reports', request, review, rules);
    }
  }

  /** The report an execution leaves, if it ended as the review allows. A tool
      that found nothing to mutate writes none. */
  function Produced(execution: Execution, review: Option<Review>): Option<Report> {
    if execution.exit != Clean && (review.None? || execution.exit != EfficacyThreshold) then None
    else match execution.written
      case NotWritten => if execution.confirmsNoResults then Some(NO_FILES) else None
      case Unreadable => None
      case Written(decoded) => decoded
  }

  /** The counts are those of the report: of all its mutations, and by status. */
  ghost predicate CountsOf(report: Report, summary: Summary) {
    && report.files.Some? && summary.mutants == |PlacesIn(report.files.value)|
    && summary.killed == |PlacesOf(report.files.value, "KILLED")|
    && summary.equivalent == |PlacesOf(report.files.value, "LIVED")|
  }

  lemma ValidatedCounts(report: Report, review: Option<Review>, rules: Rules, summary: Summary)
    requires Validated(report, review, rules) == Some(summary)
    ensures CountsOf(report, summary)
  {
    hide Canonical, PlacesIn, PlacesOf, Mutants, CountStatus;
    CountsArePlaces(report.files.value, "KILLED");
    CountsArePlaces(report.files.value, "LIVED");
  }

  /** The tool ended without error, or with the efficacy exit under a review, and
      either wrote this report or wrote none and confirmed that there was nothing to
      mutate, which counts as an empty report. */
  ghost predicate Delivers(execution: Execution, review: Option<Review>, report: Report) {
    && (execution.exit == Clean || (execution.exit == EfficacyThreshold && review != None))
    && if execution.confirmsNoResults && execution.written == NotWritten
       then report == Report("", None, Some([]), Counters(None, None, None, None, None, None, None), None)
       else execution.written == Written(Some(report))
  }

  lemma ProducedIsExact(execution: Execution, review: Option<Review>, report: Report)
    ensures Produced(execution, review) == Some(report) <==> Delivers(execution, review, report)
  {
  }

  lemma GrowsTwice<K, T>(a: map<K, Option<T>>, b: map<K, Option<T>>, c: map<K, Option<T>>)
    requires Grows(a, b) && Grows(b, c)
    ensures Grows(a, c)
  {
  }

  lemma GrowsNothing<K, T>(files: map<K, Option<T>>)
    ensures Grows(files, files)
  {
  }

  /** Since files are never replaced, a report that does not agree with what is on
      file never will: a package without a record whose runs produce it is stuck. */
  lemma StuckForever(reports: Reports, reports': Reports, digest: string, report: Report, review: Option<Review>,
                     rules: Rules)
    requires Grows(reports, reports') && digest in reports
    ensures Agrees(reports', digest, report, review, rules) <==> Agrees(reports, digest, report, review, rules)
  {
  }

  /** Some acceptable report could still be filed exactly when the one on file is
      itself acceptable now: it parses, and the review has not been withdrawn. */
  lemma UnstuckIfAcceptable(reports: Reports, digest: string, review: Option<Review>, rules: Rules)
    requires digest in reports
    ensures (exists report :: Accepted(report, review, rules.syntax) && Agrees(reports, digest, report, review, rules))
      <==> reports[digest].Some? && Accepted(reports[digest].value, review, rules.syntax)
  {
    hide Accepted, Canonical;
    if reports[digest].Some? && Accepted(reports[digest].value, review, rules.syntax) {
      assert Agrees(reports, digest, reports[digest].value, review, rules);
    }
  }

  class Campaign {
    const policy: Policy
    const store: Store
    /** What a package's inputs are when looked at for the n-th time. */
    const observe: (string, nat) -> Option<Inputs>
    const execute: (string, nat) -> Execution
    const prepared: nat -> bool
    const now: nat -> nat
    var looks: nat
    var toolRuns: nat

    constructor (policy: Policy, store: Store, observe: (string, nat) -> Option<Inputs>,
                 execute: (string, nat) -> Execution, prepared: nat -> bool, now: nat -> nat)
      ensures this.policy == policy && this.store == store && this.observe == observe && this.execute == execute
      ensures this.prepared == prepared && this.now == now && looks == 0 && toolRuns == 0
    {
      this.policy, this.store, this.observe, this.execute, this.prepared, this.now :=
        policy, store, observe, execute, prepared, now;
      looks, toolRuns := 0, 0;
    }

    function RequestFor(package: string, digest: string): Request {
      Request(policy.repository, policy.moduleDirectory, package, digest)
    }

    /** What the store now says about a package. */
    ghost function Decision(package: string, inputs: Inputs, review: Option<Review>): Reuse
      reads store`records, store`reports
    {
      Decide(store.records, store.reports, RequestFor(package, inputs.digest), review, store.rules)
    }

    /** The record that binds a stored report to a package and its inputs. */
    function RecordFor(package: string, inputs: Inputs, summary: Summary, look: nat): Record {
      Record(SCHEMA_VERSION, policy.repository, policy.moduleDirectory, package, "mutation",
        inputs.digest, store.rules.semanticVerifier, "passed", summary.digest,
        policy.environment["GOARCH" := policy.goarch], now(look))
    }

    /** An execution from time `look` on may become evidence: it was prepared,
        ended as the review allows, left a report that the review accepts, and
        neither inputs nor selection changed meanwhile. */
    ghost predicate Admissible(package: string, inputs: Inputs, review: Option<Review>, look: nat) {
      Usable(package, review, look) && Unchanging(package, inputs, review, look)
    }

    /** The tool was prepared, ended as the review allows and left an acceptable report. */
    ghost predicate Usable(package: string, review: Option<Review>, look: nat) {
      var report := Produced(execute(package, look), review);
      prepared(look) && report.Some? && Accepted(report.value, review, store.rules.syntax)
    }

    /** At this look the inputs and the selection are still the same. */
    ghost predicate Unchanging(package: string, inputs: Inputs, review: Option<Review>, look: nat) {
      var again := observe(package, look);
      && again.Some? && again.value.digest == inputs.digest
      && var current := ReviewFor(policy, package, again.value.source, store.rules.syntax);
      current.Ok? && SameSelection(review, current.value)
    }

    /** Said of the execution itself: the tool was prepared and delivered this
        report, the review accepts it, and a second look found the inputs of the
        same digest and a review that selects the same. */
    ghost predicate Earns(package: string, inputs: Inputs, review: Option<Review>, look: nat, report: Report) {
      && prepared(look) && Delivers(execute(package, look), review, report)
      && Accepted(report, review, store.rules.syntax)
      && exists source, current | SameSelection(review, current) ::
           && observe(package, look) == Some(Inputs(inputs.digest, source))
           && ReviewFor(policy, package, source, store.rules.syntax) == Ok(current)
    }

    /** The execution earned a report of the digest on file, and on file is that
        very report unless `reports` had one before; the summary counts the one on file. */
    ghost predicate Earned(package: string, inputs: Inputs, review: Option<Review>, look: nat, summary: Summary,
                           reports: Reports)
      reads store`reports
    {
      exists report | Earns(package, inputs, review, look, report) ::
        && inputs.digest in store.reports && store.reports[inputs.digest].Some?
        && SameDigest(store.reports[inputs.digest].value, report, review, store.rules)
        && (inputs.digest !in reports ==> store.reports[inputs.digest].value == report)
        && CountsOf(store.reports[inputs.digest].value, summary)
    }

    ghost predicate EarnsNothing(package: string, inputs: Inputs, review: Option<Review>, look: nat) {
      forall report :: !Earns(package, inputs, review, look, report)
    }

    lemma EarnsIsExact(package: string, inputs: Inputs, review: Option<Review>, look: nat)
      ensures Admissible(package, inputs, review, look) <==> !EarnsNothing(package, inputs, review, look)
      ensures forall report | Earns(package, inputs, review, look, report) ::
        report == Produced(execute(package, look), review).value
    {
      hide Accepted, ReviewFor, SameSelection, Produced, Delivers;
      forall report ensures
        Produced(execute(package, look), review) == Some(report) <==> Delivers(execute(package, look), review, report)
      {
        ProducedIsExact(execute(package, look), review, report);
      }
      if Admissible(package, inputs, review, look) {
        var report := Produced(execute(package, look), review).value;
        var again := observe(package, look).value;
        assert SameSelection(review, ReviewFor(policy, package, again.source, store.rules.syntax).value);
        assert again == Inputs(inputs.digest, again.source);
        assert Earns(package, inputs, review, look, report);
      }
    }

    /** The report agrees with what is on file for the inputs, if anything, and
        the record that would be filed is a valid one. */
    ghost predicate Fileable(package: string, inputs: Inputs, review: Option<Review>, report: Report, look: nat)
      reads store`reports
    {
      && Validated(report, review, store.rules).Some?
      && Agrees(store.reports, inputs.digest, report, review, store.rules)
      && ValidRecord(RecordFor(package, inputs, Validated(report, review, store.rules).value, look), store.rules)
    }

    /** What filing a report of a package does to files that were `records` and
        `reports`. On success the record of exactly this evidence is new, and the
        report too unless one of its digest was there; the counts are those of
        the report on file. On failure no record is filed, and at most this report. */
    ghost predicate Filed(package: string, inputs: Inputs, review: Option<Review>, report: Report, look: nat,
                          r: Result<Event, Failure>, records: Records, reports: Reports)
      reads store`records, store`reports
    {
      var place, digest := Filing("mutation", inputs.digest), inputs.digest;
      if r.Ok? then
        && r.value.Executed? && place !in records
        && store.records == records[place := Some(RecordFor(package, inputs, r.value.summary, look))]
        && store.reports == (if digest in reports then reports else reports[digest := Some(report)])
        && digest in store.reports && store.reports[digest].Some?
        && SameDigest(store.reports[digest].value, report, review, store.rules)
        && Validated(store.reports[digest].value, review, store.rules) == Some(r.value.summary)
      else
        && store.records == records
        && (store.reports == reports ||
            (digest !in reports
             && Accepted(report, review, store.rules.syntax) && store.reports == reports[digest := Some(report)]))
    }

    /** One look at a package's inputs, one admissible execution after it, and the
        filing of the report of that execution. */
    ghost predicate Ran(package: string, inputs: Inputs, review: Option<Review>, look: nat,
                        r: Result<Event, Failure>, records: Records, reports: Reports)
      reads store`records, store`reports
    {
      && observe(package, look) == Some(inputs)
      && ReviewFor(policy, package, inputs.source, store.rules.syntax) == Ok(review)
      && Decide(records, reports, RequestFor(package, inputs.digest), review, store.rules) == Miss
      && Admissible(package, inputs, review, look + 1)
      && Filed(package, inputs, review, Produced(execute(package, look + 1), review).value, look + 2, r, records,
               reports)
    }

    /** The review in force at a later look at the package's inputs. */
    ghost function LaterReview(package: string, look: nat): Option<Review> {
      match observe(package, look)
      case None => None
      case Some(inputs) =>
        match ReviewFor(policy, package, inputs.source, store.rules.syntax)
        case Ok(review) => review
        case Err(_) => None
    }

    /** There is no record for the inputs, and the report on file does not parse or
        is refused by the review. */
    ghost predicate Stuck(digest: string, review: Option<Review>)
      reads store`records, store`reports
    {
      && Filing("mutation", digest) !in store.records && digest in store.reports
      && (store.reports[digest].None? || !Accepted(store.reports[digest].value, review, store.rules.syntax))
    }

    lemma StuckIsNoEvidence(package: string, inputs: Inputs, review: Option<Review>)
      requires Stuck(inputs.digest, review)
      ensures !Decision(package, inputs, review).Hit?
      ensures forall report, look :: !Fileable(package, inputs, review, report, look)
    {
    }

    method CurrentReview(package: string, source: string) returns (r: Result<Option<Review>, Refusal>)
      ensures r == ReviewFor(policy, package, source, store.rules.syntax)
    {
      hide Applicable;
      r := SelectReview(policy.reviews, policy.moduleDirectory, package, source, policy.version, policy.verifier,
                        policy.goarch, store.rules.syntax);
    }

    method Observe(package: string) returns (inputs: Option<Inputs>)
      modifies this`looks
      ensures inputs == observe(package, old(looks)) && looks == old(looks) + 1
    {
      inputs := observe(package, looks);
      looks := looks + 1;
    }

    /** Reuses evidence for a package, or runs the tool and stores its evidence. */
    method RunPackage(package: string)
      returns (r: Result<Event, Failure>, ghost inputs: Inputs, ghost review: Option<Review>)
      modifies this`looks, this`toolRuns, store
      ensures old(looks) < looks
      ensures Grows(old(store.records), store.records) && Grows(old(store.reports), store.reports)
      ensures r.Ok? ==>
        && observe(package, old(looks)) == Some(inputs)
        && ReviewFor(policy, package, inputs.source, store.rules.syntax) == Ok(review)
        && Decision(package, inputs, review) == Hit(r.value.summary)
      ensures r.Ok? ==> old(Decision(package, inputs, review)) == if r.value.Reused? then Hit(r.value.summary) else Miss
      ensures r.Ok? ==> toolRuns == old(toolRuns) + if r.value.Reused? then 0 else 1
      ensures r.Ok? && r.value.Reused? ==> store.records == old(store.records) && store.reports == old(store.reports)
      ensures r.Ok? && r.value.Executed? ==> Admissible(package, inputs, review, old(looks) + 1)
      ensures r.Ok? && r.value.Executed? ==>
        old(Fileable(package, inputs, review, Produced(execute(package, looks + 1), review).value, looks + 2))
      ensures r.Ok? && r.value.Executed? ==>
        Ran(package, inputs, review, old(looks), r, old(store.records), old(store.reports))
      ensures store.records != old(store.records) || store.reports != old(store.reports) ==>
        Ran(package, inputs, review, old(looks), r, old(store.records), old(store.reports))
      ensures r.Ok? && r.value.Executed? ==>
        Decision(package, observe(package, old(looks) + 1).value, LaterReview(package, old(looks) + 1))
          == Hit(r.value.summary)
      ensures r.Ok? && r.value.Executed? ==>
        Earned(package, inputs, review, old(looks) + 1, r.value.summary, old(store.reports))
      ensures EarnsNothing(package, inputs, review, old(looks) + 1) ==>
        && (r.Err? || r.value.Reused?)
        && store.records == old(store.records) && store.reports == old(store.reports)
      ensures r.Ok? ==> !old(Stuck(inputs.digest, review))
      ensures r.Err? ==> store.records == old(store.records)
      ensures
        && store.QuietSince(old(store.clock)) && observe(package, old(looks)) == Some(inputs)
        && ReviewFor(policy, package, inputs.source, store.rules.syntax) == Ok(review)
        && old(Decision(package, inputs, review)) == Miss && Admissible(package, inputs, review, old(looks) + 1)
        && old(Fileable(package, inputs, review, Produced(execute(package, looks + 1), review).value, looks + 2))
        ==> r.Ok?
      ensures
        && store.QuietSince(old(store.clock)) && observe(package, old(looks)) == Some(inputs)
        && ReviewFor(policy, package, inputs.source, store.rules.syntax) == Ok(review)
        && old(Decision(package, inputs, review)) == Miss && old(Deserves(package, inputs, review, looks + 1))
        ==> r.Ok?
      ensures old(toolRuns) <= toolRuns && (r.Err? ==> toolRuns <= old(toolRuns) + 1)
      ensures toolRuns > old(toolRuns) ==> old(Decision(package, inputs, review)) == Miss
      ensures old(store.clock) <= store.clock
      ensures observe(package, old(looks)).Some? ==> observe(package, old(looks)) == Some(inputs)
      ensures
        && observe(package, old(looks)) == Some(inputs)
        && ReviewFor(policy, package, inputs.source, store.rules.syntax).Ok?
        ==> ReviewFor(policy, package, inputs.source, store.rules.syntax) == Ok(review)
      ensures
        && store.QuietSince(old(store.clock)) && observe(package, old(looks)) == Some(inputs)
        && ReviewFor(policy, package, inputs.source, store.rules.syntax) == Ok(review)
        && old(Decision(package, inputs, review)).Hit?
        ==> r == Ok(Reused(old(Decision(package, inputs, review)).summary))
    {
      hide ReviewFor, Decide, Accepted, SameSelection, Produced, ValidRecord, Validated, Admissible, Fileable;
      hide Earned, EarnsNothing, Deserves;
      hide RecordFor, Grows, Stuck, Filed;
      inputs, review := Inputs("", ""), None;
      GrowsNothing(store.records);
      GrowsNothing(store.reports);
      var observed := Observe(package);
      if observed.None? {
        return Err(InputsUnavailable), inputs, review;
      }
      inputs := observed.value;
      var current := CurrentReview(package, observed.value.source);
      if current.Err? {
        return Err(ReviewRefused), inputs, review;
      }
      review := current.value;
      var reuse := ReuseWithReview(store, RequestFor(package, observed.value.digest), current.value);
      if Stuck(inputs.digest, review) {
        StuckIsNoEvidence(package, inputs, review);
      }
      match reuse {
        case Unusable =>
          r := Err(EvidenceUnusable);
        case Hit(summary) =>
          r := Ok(Reused(summary));
        case Miss =>
          ghost var records, reports, look := store.records, store.reports, looks;
          if Deserves(package, inputs, review, look) {
            DeservingIsFileable(package, inputs, review, look);
          }
          r := Execute(package, observed.value, current.value);
          EarnsIsExact(package, inputs, review, look);
          if r.Ok? {
            FiledIsEarned(package, inputs, review, old(looks), r, records, reports);
          }
      }
    }

    /** What keeps a record of this report from being valid, said of the policy,
        the clock and the checks on single strings: nothing does. */
    ghost predicate Recordable(report: Report, look: nat) {
      && policy.repository != "" && policy.moduleDirectory != "" && now(look) != 0
      && store.rules.digest(store.rules.semanticVerifier) && store.rules.digest(store.rules.hash(Canonical(report)))
      && !store.rules.blank("GOARCH") && forall key | key in policy.environment :: !store.rules.blank(key)
    }

    /** The execution earned a recordable report, and none of another digest is on file. */
    ghost predicate Deserves(package: string, inputs: Inputs, review: Option<Review>, look: nat)
      reads store`reports
    {
      exists report | Earns(package, inputs, review, look, report) ::
        && Recordable(report, look + 1)
        && (inputs.digest in store.reports ==>
              && store.reports[inputs.digest].Some?
              && SameDigest(store.reports[inputs.digest].value, report, review, store.rules))
    }

    lemma DeservingIsFileable(package: string, inputs: Inputs, review: Option<Review>, look: nat)
      requires Deserves(package, inputs, review, look) && Decision(package, inputs, review) == Miss
      ensures Admissible(package, inputs, review, look)
      ensures Fileable(package, inputs, review, Produced(execute(package, look), review).value, look + 1)
    {
      hide Accepted, Canonical, Admissible, Produced, Earns;
      EarnsIsExact(package, inputs, review, look);
      MissIsExact(store.records, store.reports, RequestFor(package, inputs.digest), review, store.rules);
      var report :| Earns(package, inputs, review, look, report) && Recordable(report, look + 1)
        && (inputs.digest in store.reports ==>
              && store.reports[inputs.digest].Some?
              && SameDigest(store.reports[inputs.digest].value, report, review, store.rules));
      EarnedIsAccepted(package, inputs, review, look, report);
    }

    lemma EarnedIsAccepted(package: string, inputs: Inputs, review: Option<Review>, look: nat, report: Report)
      requires Earns(package, inputs, review, look, report)
      ensures Accepted(report, review, store.rules.syntax)
    {
    }

    /** What an execution earned is on file, and nothing was filed without it. */
    lemma FiledIsEarned(package: string, inputs: Inputs, review: Option<Review>, look: nat,
                        r: Result<Event, Failure>, records: Records, reports: Reports)
      requires Ran(package, inputs, review, look, r, records, reports) && r.Ok?
      ensures Earned(package, inputs, review, look + 1, r.value.summary, reports)
    {
      hide Admissible, ReviewFor, Validated, SameDigest, Earns, CountsOf, RecordFor, Decide, Produced;
      EarnsIsExact(package, inputs, review, look + 1);
      ValidatedCounts(store.reports[inputs.digest].value, review, store.rules, r.value.summary);
    }

    /** Runs the tool for a package that has no evidence yet. */
    method Execute(package: string, inputs: Inputs, review: Option<Review>) returns (r: Result<Event, Failure>)
      requires ReviewFor(policy, package, inputs.source, store.rules.syntax) == Ok(review)
      requires Decision(package, inputs, review) == Miss
      modifies this`looks, this`toolRuns, store
      ensures old(store.clock) <= store.clock && old(looks) <= looks
      ensures Grows(old(store.records), store.records) && Grows(old(store.reports), store.reports)
      ensures r.Ok? ==> r.value.Executed? && toolRuns == old(toolRuns) + 1
      ensures r.Ok? ==> Decision(package, inputs, review) == Hit(r.value.summary)
      ensures r.Ok? ==> Admissible(package, inputs, review, old(looks))
      ensures if Admissible(package, inputs, review, old(looks)) then
          Filed(package, inputs, review, Produced(execute(package, old(looks)), review).value, old(looks) + 1,
                r, old(store.records), old(store.reports))
        else r.Err? && store.records == old(store.records) && store.reports == old(store.reports)
      ensures r.Ok? ==>
        Decision(package, observe(package, old(looks)).value, LaterReview(package, old(looks))) == Hit(r.value.summary)
      ensures toolRuns == old(toolRuns) + if prepared(old(looks)) then 1 else 0
      ensures r.Ok? ==> !old(Stuck(inputs.digest, review))
      ensures r.Ok? ==>
        old(Fileable(package, inputs, review, Produced(execute(package, looks), review).value, looks + 1))
      ensures r.Err? ==> store.records == old(store.records)
      ensures
        && store.QuietSince(old(store.clock)) && Admissible(package, inputs, review, old(looks))
        && old(Fileable(package, inputs, review, Produced(execute(package, looks), review).value, looks + 1))
        ==> r.Ok?
      ensures r.Err? ==> toolRuns <= old(toolRuns) + 1
    {
      hide ReviewFor, Decide, ValidRecord, Accepted, SameSelection, Produced, Filed, RecordFor, Fileable, Stuck;
      GrowsNothing(store.records);
      GrowsNothing(store.reports);
      NothingFiled(package, inputs, review);
      if Stuck(inputs.digest, review) {
        StuckIsNoEvidence(package, inputs, review);
      }
      hide Grows;
      var report := RunTool(package, review);
      if report.Err? {
        return Err(report.error);
      }
      var changed := LookAgain(package, inputs, review);
      if changed.Some? {
        return Err(changed.value);
      }
      r := Publish(package, inputs, review, report.value);
      LaterDecision(package, inputs, review, observe(package, old(looks)).value);
    }

    /** Runs the tool, and accepts its report or not. */
    method RunTool(package: string, review: Option<Review>) returns (r: Result<Report, Failure>)
      modifies this`toolRuns
      ensures toolRuns == old(toolRuns) + if prepared(looks) then 1 else 0
      ensures r.Ok? <==> Usable(package, review, looks)
      ensures r.Ok? ==> r.value == Produced(execute(package, looks), review).value
    {
      hide Accepted, Canonical, Mutants, CountStatus;
      if !prepared(looks) {
        return Err(PreparationFailed);
      }
      var execution := execute(package, looks);
      toolRuns := toolRuns + 1;
      if execution.exit != Clean && (review.None? || execution.exit != EfficacyThreshold) {
        return Err(ToolFailed);
      }
      var report;
      match execution.written {
        case NotWritten =>
          if !execution.confirmsNoResults {
            return Err(ReportMissing);
          }
          report := NO_FILES;
        case Unreadable =>
          return Err(ReportMissing);
        case Written(decoded) =>
          if decoded.None? {
            return Err(ReportRejected);
          }
          report := decoded.value;
      }
      var result := ValidateReport(report, review, store.rules.syntax, store.rules.hash);
      r := if result.Ok? then Ok(report) else Err(ReportRejected);
    }

    /** Looks at the inputs again: they and the selection must not have changed. */
    method LookAgain(package: string, inputs: Inputs, review: Option<Review>) returns (failure: Option<Failure>)
      modifies this`looks
      ensures looks == old(looks) + 1
      ensures failure.None? <==> Unchanging(package, inputs, review, old(looks))
    {
      hide ReviewFor, SameSelection;
      var again := Observe(package);
      if again.None? {
        return Some(InputsUnavailable);
      }
      var currentReview := CurrentReview(package, again.value.source);
      if currentReview.Err? || !SameSelection(review, currentReview.value) {
        return Some(SelectionChanged);
      }
      if again.value.digest != inputs.digest {
        return Some(InputsChanged);
      }
      failure := None;
    }

    /** The same evidence counts under the review in force at the later look. */
    lemma LaterDecision(package: string, inputs: Inputs, review: Option<Review>, again: Inputs)
      requires ReviewFor(policy, package, inputs.source, store.rules.syntax) == Ok(review)
      requires ReviewFor(policy, package, again.source, store.rules.syntax).Ok?
      requires SameSelection(review, ReviewFor(policy, package, again.source, store.rules.syntax).value)
      requires again.digest == inputs.digest
      ensures Decision(package, again, ReviewFor(policy, package, again.source, store.rules.syntax).value)
        == Decision(package, inputs, review)
    {
      hide SameSelection, ValidExecution, Decide;
      ReviewIsAdmitted(package, inputs.source, review);
      ReviewIsAdmitted(package, again.source, ReviewFor(policy, package, again.source, store.rules.syntax).value);
      SameSelectionSameDecision(review, ReviewFor(policy, package, again.source, store.rules.syntax).value,
                                store.rules);
    }

    /** Filing that fails before anything was stored leaves everything as it was. */
    lemma NothingFiled(package: string, inputs: Inputs, review: Option<Review>)
      ensures forall report, look, e: Failure ::
        Filed(package, inputs, review, report, look, Err(e), store.records, store.reports)
    {
    }

    /** Stores a report, then the record that points to it. */
    method Publish(package: string, inputs: Inputs, review: Option<Review>, report: Report)
      returns (r: Result<Event, Failure>)
      requires ReviewFor(policy, package, inputs.source, store.rules.syntax) == Ok(review)
      requires Decision(package, inputs, review) == Miss
      modifies store
      ensures old(store.clock) <= store.clock
      ensures Grows(old(store.records), store.records) && Grows(old(store.reports), store.reports)
      ensures r.Ok? ==> r.value.Executed? && Decision(package, inputs, review) == Hit(r.value.summary)
      ensures Filed(package, inputs, review, report, looks, r, old(store.records), old(store.reports))
      ensures r.Err? ==> store.records == old(store.records)
      ensures r.Ok? <==> store.QuietSince(old(store.clock)) && old(Fileable(package, inputs, review, report, looks))
    {
      hide ReviewFor, Accepted, Canonical, Mutants, CountStatus, ValidRecord;
      var stored := store.StoreReport(inputs.digest, report, review);
      if stored.None? {
        return Err(StoreFailed);
      }
      var record := RecordFor(package, inputs, stored.value, looks);
      var filed := store.StoreRecord(record);
      if !filed {
        return Err(StoreFailed);
      }
      PublishedIsHit(package, inputs, review, record, stored.value);
      r := Ok(Executed(stored.value));
    }

    lemma PublishedIsHit(package: string, inputs: Inputs, review: Option<Review>, record: Record, summary: Summary)
      requires ReviewFor(policy, package, inputs.source, store.rules.syntax) == Ok(review)
      requires store.rules.gate("mutation") && store.rules.digest(inputs.digest)
      requires exists look :: record == RecordFor(package, inputs, summary, look)
      requires Filing("mutation", inputs.digest) in store.records
      requires store.records[Filing("mutation", inputs.digest)].Some?
      requires Equivalent(store.records[Filing("mutation", inputs.digest)].value, record)
      requires ValidRecord(store.records[Filing("mutation", inputs.digest)].value, store.rules)
      requires inputs.digest in store.reports && store.reports[inputs.digest].Some?
      requires Validated(store.reports[inputs.digest].value, review, store.rules) == Some(summary)
      ensures Decision(package, inputs, review) == Hit(summary)
    {
      hide ValidRecord, Applicable, Accepted;
      ReviewIsAdmitted(package, inputs.source, review);
      var found := store.records[Filing("mutation", inputs.digest)].value;
      assert found.(completedAt := 0) == record.(completedAt := 0);
      assert found.environment == record.environment;
    }

    /** A review in force was admitted for the architecture of this campaign. */
    lemma ReviewIsAdmitted(package: string, source: string, review: Option<Review>)
      requires ReviewFor(policy, package, source, store.rules.syntax) == Ok(review)
      ensures review.Some? ==>
        ValidExecution(review.value, store.rules.syntax) && review.value.architecture == policy.goarch
    {
      hide ValidExecution;
      if review.Some? {
        var k: nat :| FirstFor(policy.reviews, k, policy.moduleDirectory, package) &&
          Applicable(policy.reviews[k], source, policy.version, policy.verifier, policy.goarch, store.rules.syntax)
            == Ok(review);
        ApplicableIsExecutable(policy.reviews[k], source, policy.version, policy.verifier, policy.goarch,
                               store.rules.syntax);
      }
    }

    /** There is no record for the inputs, and no admissible execution from look
        `from` on leaves a report that agrees with the one on file. */
    ghost predicate Hopeless(package: string, inputs: Inputs, review: Option<Review>, from: nat)
      reads store`records, store`reports
    {
      && Filing("mutation", inputs.digest) !in store.records
      && forall look: nat | from <= look && Admissible(package, inputs, review, look) ::
           !Agrees(store.reports, inputs.digest, Produced(execute(package, look), review).value, review, store.rules)
    }

    /** A report on file that does not parse or is refused leaves no hope. */
    lemma StuckIsHopeless(package: string, inputs: Inputs, review: Option<Review>, from: nat)
      requires Stuck(inputs.digest, review)
      ensures Hopeless(package, inputs, review, from)
    {
      hide Admissible, Accepted, Canonical;
    }

    /** However often it is run, a package without hope fails, as long as its
        inputs stay what they are. */
    method TryAgain(package: string, times: nat, ghost inputs: Inputs, ghost review: Option<Review>)
      returns (failures: nat)
      requires forall look: nat | looks <= look :: observe(package, look) == Some(inputs)
      requires ReviewFor(policy, package, inputs.source, store.rules.syntax) == Ok(review)
      requires Hopeless(package, inputs, review, looks)
      modifies this`looks, this`toolRuns, store
      ensures failures == times && Hopeless(package, inputs, review, looks)
      ensures store.records == old(store.records)
    {
      hide ReviewFor, Decide, Admissible, Agrees, Fileable, Stuck;
      failures := 0;
      for i := 0 to times
        invariant old(looks) <= looks && failures == i
        invariant Hopeless(package, inputs, review, looks) && store.records == old(store.records)
      {
        ghost var records, reports, look := store.records, store.reports, looks;
        NoHopeNoEvidence(package, inputs, review);
        var r;
        ghost var seen, current;
        r, seen, current := RunPackage(package);
        if r.Err? {
          failures := failures + 1;
        }
        StillHopeless(package, inputs, review, look, r, records, reports);
      }
    }

    lemma NoHopeNoEvidence(package: string, inputs: Inputs, review: Option<Review>)
      requires Hopeless(package, inputs, review, looks)
      ensures !Decision(package, inputs, review).Hit?
      ensures Admissible(package, inputs, review, looks + 1) ==>
        !Fileable(package, inputs, review, Produced(execute(package, looks + 1), review).value, looks + 2)
    {
      hide Admissible, Agrees, ValidRecord, Validated;
    }

    lemma StillHopeless(package: string, inputs: Inputs, review: Option<Review>, look: nat,
                        r: Result<Event, Failure>, records: Records, reports: Reports)
      requires look <= looks && store.records == records && r.Err?
      requires Filing("mutation", inputs.digest) !in records
      requires forall k: nat | look <= k && Admissible(package, inputs, review, k) ::
        !Agrees(reports, inputs.digest, Produced(execute(package, k), review).value, review, store.rules)
      requires store.reports != reports ==> Ran(package, inputs, review, look, r, records, reports)
      ensures Hopeless(package, inputs, review, looks)
    {
      hide Admissible, Decide, ReviewFor, SameDigest, Accepted;
    }

    /** The packages in the order they are run. */
    function Ordered(): seq<string> {
      Sort(policy.packages, LexLe)
    }

    /** Package `package` has evidence for `done` among these files. */
    ghost predicate EvidencedIn(package: string, done: Done, records: Records, reports: Reports) {
      && ReviewFor(policy, package, done.inputs.source, store.rules.syntax) == Ok(done.review)
      && Decide(records, reports, RequestFor(package, done.inputs.digest), done.review, store.rules)
           == Hit(done.event.summary)
    }

    ghost predicate Evidenced(package: string, done: Done)
      reads store`records, store`reports
    {
      EvidencedIn(package, done, store.records, store.reports)
    }

    /** Evidence among these files was reused, with its counts. */
    ghost predicate Reuses(package: string, done: Done, records: Records, reports: Reports) {
      var decision := Decide(records, reports, RequestFor(package, done.inputs.digest), done.review, store.rules);
      decision.Hit? ==> done.event == Reused(decision.summary)
    }

    /** The inputs were seen at a look of this run. */
    ghost predicate Seen(package: string, done: Done, from: nat, to: nat) {
      from <= done.look < to && observe(package, done.look) == Some(done.inputs)
    }

    /** Evidence that was not reused comes from an admissible execution: the report
        on file has the digest of the one which that execution left, and the
        counts are those of the report on file. */
    ghost predicate Proved(package: string, done: Done, reports: Reports) {
      done.event.Executed? ==>
        var digest := done.inputs.digest;
        && Admissible(package, done.inputs, done.review, done.look + 1)
        && digest in reports && reports[digest].Some?
        && SameDigest(reports[digest].value, Produced(execute(package, done.look + 1), done.review).value, done.review,
                      store.rules)
        && Validated(reports[digest].value, done.review, store.rules) == Some(done.event.summary)
    }

    /** The record filed at this place is the one that binds this evidence. */
    ghost predicate Binds(package: string, done: Done, place: Filing, file: Option<Record>) {
      && done.event.Executed? && place == Filing("mutation", done.inputs.digest)
      && file == Some(RecordFor(package, done.inputs, done.event.summary, done.look + 2))
    }

    /** A report that an admissible execution left, for inputs seen just before it. */
    ghost predicate Leaves(package: string, inputs: Inputs, review: Option<Review>, look: nat, file: Option<Report>) {
      && observe(package, look) == Some(inputs)
      && ReviewFor(policy, package, inputs.source, store.rules.syntax) == Ok(review)
      && Admissible(package, inputs, review, look + 1)
      && file == Some(Produced(execute(package, look + 1), review).value)
    }

    /** Every record that has been added binds the evidence of a package that was
        executed, and nothing else has been added. */
    ghost predicate OnlyRecorded(packages: seq<string>, done: seq<Done>, before: Records, after: Records)
      requires |done| <= |packages|
    {
      && Grows(before, after)
      && forall place | place in after && place !in before ::
           exists k | 0 <= k < |done| :: Binds(packages[k], done[k], place, after[place])
    }

    ghost predicate LeftInRun(packages: seq<string>, from: nat, to: nat, digest: string, file: Option<Report>) {
      exists package, inputs, review, look: nat | Leaves(package, inputs, review, look, file) ::
        package in packages && from <= look < to && inputs.digest == digest
    }

    /** Every report that has been added was produced during the run, for inputs
        that had no record when it began. */
    ghost predicate OnlyProduced(packages: seq<string>, from: nat, to: nat, records: Records, before: Reports,
                                 after: Reports) {
      && Grows(before, after)
      && forall digest | digest in after && digest !in before ::
           Filing("mutation", digest) !in records && LeftInRun(packages, from, to, digest, after[digest])
    }

    /** So a decision can only have become a hit through a package that was executed. */
    lemma NewHitsAreExecuted(packages: seq<string>, done: seq<Done>, from: nat, to: nat,
                             records: Records, reports: Reports, records': Records, reports': Reports)
      requires |done| <= |packages| && OnlyRecorded(packages, done, records, records')
      requires OnlyProduced(packages, from, to, records, reports, reports')
      ensures HitsAreExecuted(done, records, reports, records', reports')
    {
      hide LeftInRun, RecordFor, Validated, ValidRecord, Requested, SameArchitecture;
    }

    /** What a run has done so far, at look `to`, if it began at look `from` with
        files `records0` and `reports0` and these are the files now. */
    ghost predicate Accounts(packages: seq<string>, done: seq<Done>, from: nat, to: nat,
                             records0: Records, reports0: Reports, records: Records, reports: Reports) {
      && |done| <= |packages|
      && (forall k | 0 <= k < |done| :: Accounted(packages[k], done[k], from, to, records0, reports0, records, reports))
      && OnlyRecorded(packages, done, records0, records)
      && OnlyProduced(packages, from, to, records0, reports0, reports)
    }

    /** One finished package: its inputs were seen during the run, it is evidenced
        now, evidence that was there was reused, and other evidence is proved. */
    ghost predicate Accounted(package: string, done: Done, from: nat, to: nat,
                              records0: Records, reports0: Reports, records: Records, reports: Reports) {
      && Seen(package, done, from, to) && EvidencedIn(package, done, records, reports)
      && Reuses(package, done, records0, reports0) && Proved(package, done, reports)
    }

    lemma StillAccounted(package: string, done: Done, from: nat, to: nat, later: nat,
                         records0: Records, reports0: Reports, records: Records, reports: Reports,
                         records': Records, reports': Reports)
      requires Accounted(package, done, from, to, records0, reports0, records, reports)
      requires to <= later && Grows(records, records') && Grows(reports, reports')
      ensures Accounted(package, done, from, later, records0, reports0, records', reports')
    {
      hide Decide, ReviewFor, SameDigest, Validated, Admissible, Reuses;
      HitIsStable(records, reports, records', reports', RequestFor(package, done.inputs.digest), done.review,
                  store.rules);
    }

    /** The account after one more package, whether it was finished or failed. */
    lemma AccountsStep(packages: seq<string>, done: seq<Done>, entry: Done, r: Result<Event, Failure>, from: nat,
                       to: nat, later: nat, records0: Records, reports0: Reports, records: Records,
                       reports: Reports)
      requires Accounts(packages, done, from, to, records0, reports0, records, reports)
      requires |done| < |packages| && from <= to <= entry.look < later
      requires Grows(records, store.records) && Grows(reports, store.reports)
      requires (r.Ok? && r.value.Executed?) || store.records != records || store.reports != reports ==>
        Ran(packages[|done|], entry.inputs, entry.review, entry.look, r, records, reports)
      requires r.Ok? ==>
        && entry.event == r.value && Evidenced(packages[|done|], entry)
        && Seen(packages[|done|], entry, to, later) && Reuses(packages[|done|], entry, records0, reports0)
      ensures Accounts(packages, if r.Ok? then done + [entry] else done, from, later, records0, reports0, store.records,
                       store.reports)
    {
      hide Ran, OnlyRecorded, OnlyProduced, Accounted, Reuses, EvidencedIn, Proved, Grows;
      forall k | 0 <= k < |done|
        ensures Accounted(packages[k], done[k], from, later, records0, reports0, store.records, store.reports)
      {
        StillAccounted(packages[k], done[k], from, to, later, records0, reports0, records, reports, store.records,
                       store.reports);
      }
      MoreProduced(packages, |done|, entry, r, from, to, later, records0, reports0, records, reports, done);
      if r.Ok? {
        MoreRecorded(packages, done, entry, r, records0, records, reports);
        NewlyAccounted(packages[|done|], entry, from, to, later, records0, reports0);
      } else {
        NothingRecorded(packages, done, records0, records, entry, r, reports);
      }
    }

    lemma NewlyAccounted(package: string, entry: Done, from: nat, to: nat, later: nat, records0: Records,
                         reports0: Reports)
      requires from <= to && Seen(package, entry, to, later) && Evidenced(package, entry)
      requires Reuses(package, entry, records0, reports0) && Proved(package, entry, store.reports)
      ensures Accounted(package, entry, from, later, records0, reports0, store.records, store.reports)
    {
      hide EvidencedIn, Reuses, Proved;
    }

    /** Runs one package, in a run that started with these files. */
    method RunNext(package: string, ghost records: Records, ghost reports: Reports)
      returns (r: Result<Event, Failure>, ghost done: Done)
      requires Grows(records, store.records) && Grows(reports, store.reports)
      modifies this`looks, this`toolRuns, store
      ensures old(looks) < looks && old(store.clock) <= store.clock
      ensures Grows(old(store.records), store.records) && Grows(old(store.reports), store.reports)
      ensures r.Ok? ==> done.event == r.value && Evidenced(package, done) && Seen(package, done, old(looks), looks)
      ensures r.Ok? ==> Reuses(package, done, records, reports)
      ensures r.Ok? && r.value.Executed? ==>
        Ran(package, done.inputs, done.review, done.look, r, old(store.records), old(store.reports))
      ensures store.records != old(store.records) || store.reports != old(store.reports) ==>
        Ran(package, done.inputs, done.review, done.look, r, old(store.records), old(store.reports))
      ensures done.look == old(looks)
      ensures old(toolRuns) + (if r.Ok? && r.value.Executed? then 1 else 0) <= toolRuns
      ensures toolRuns <= old(toolRuns) + if r.Ok? && r.value.Reused? then 0 else 1
      ensures r.Err? && store.QuietSince(old(store.clock)) ==> NoHitAt(package, old(looks), records, reports)
    {
      hide Decide, ReviewFor, SameSelection, ValidRecord, Validated, Accepted, Campaign.Admissible, Campaign.Fileable;
      hide Grows, Ran;
      ghost var before, beforeReports, look := store.records, store.reports, looks;
      ghost var inputs, review;
      r, inputs, review := RunPackage(package);
      StableSince(RequestFor(package, inputs.digest), review, records, reports, before, beforeReports, store.rules);
      done := Done(inputs, review, if r.Ok? then r.value else Reused(Summary("", 0, 0, 0)), look);
    }

    lemma NothingAdded(packages: seq<string>, from: nat, records: Records, reports: Reports)
      ensures Accounts(packages, [], from, from, records, reports, records, reports)
    {
    }

    /** What one package adds to the reports. */
    lemma MoreProduced(packages: seq<string>, index: nat, entry: Done, r: Result<Event, Failure>, from: nat, to: nat,
                       later: nat, records0: Records, reports0: Reports, records: Records, reports: Reports,
                       done: seq<Done>)
      requires index < |packages| && from <= to <= entry.look < later
      requires |done| <= |packages| && OnlyRecorded(packages, done, records0, records)
      requires OnlyProduced(packages, from, to, records0, reports0, reports)
      requires Grows(reports, store.reports)
      requires store.reports != reports ==>
        Ran(packages[index], entry.inputs, entry.review, entry.look, r, records, reports)
      ensures OnlyProduced(packages, from, later, records0, reports0, store.reports)
    {
      hide Admissible, ReviewFor, Validated, SameDigest, Accepted, RecordFor, Decide;
      forall d | d in store.reports && d !in reports0
        ensures Filing("mutation", d) !in records0 && LeftInRun(packages, from, later, d, store.reports[d])
      {
        if d in reports {
          assert store.reports[d] == reports[d];
          var package, inputs, review, look: nat :| Leaves(package, inputs, review, look, reports[d])
            && package in packages && from <= look < to && inputs.digest == d;
        } else {
          MissHasNoRecord(packages[index], entry.inputs, entry.review, records, reports);
          assert Leaves(packages[index], entry.inputs, entry.review, entry.look, store.reports[d]);
        }
      }
    }

    lemma MissHasNoRecord(package: string, inputs: Inputs, review: Option<Review>, records: Records, reports: Reports)
      requires Decide(records, reports, RequestFor(package, inputs.digest), review, store.rules) == Miss
      ensures Filing("mutation", inputs.digest) !in records
    {
    }

    /** What one executed package adds to the records, and that its evidence is proved. */
    lemma MoreRecorded(packages: seq<string>, done: seq<Done>, entry: Done, r: Result<Event, Failure>,
                       records0: Records, records: Records, reports: Reports)
      requires |done| < |packages| && OnlyRecorded(packages, done, records0, records)
      requires r.Ok? && r.value == entry.event
      requires entry.event.Executed? || store.records != records ==>
        Ran(packages[|done|], entry.inputs, entry.review, entry.look, r, records, reports)
      ensures OnlyRecorded(packages, done + [entry], records0, store.records)
      ensures forall k | 0 <= k < |done| :: (done + [entry])[k] == done[k]
      ensures Proved(packages[|done|], entry, store.reports)
    {
      hide Admissible, ReviewFor, Validated, SameDigest, Accepted, RecordFor, Decide;
      var more := done + [entry];
      forall place | place in store.records && place !in records0
        ensures exists k | 0 <= k < |more| :: Binds(packages[k], more[k], place, store.records[place])
      {
        if place in records {
          var k :| 0 <= k < |done| && Binds(packages[k], done[k], place, records[place]);
          assert Binds(packages[k], more[k], place, store.records[place]);
        } else {
          assert Binds(packages[|done|], more[|done|], place, store.records[place]);
        }
      }
    }

    lemma NothingRecorded(packages: seq<string>, done: seq<Done>, records0: Records, records: Records, entry: Done,
                          r: Result<Event, Failure>, reports: Reports)
      requires |done| < |packages| && OnlyRecorded(packages, done, records0, records) && r.Err?
      requires store.records != records ==>
        Ran(packages[|done|], entry.inputs, entry.review, entry.look, r, records, reports)
      ensures OnlyRecorded(packages, done, records0, store.records)
    {
    }

    /** Decisions that have become hits did so through a package that was executed. */
    ghost predicate HitsAreExecuted(done: seq<Done>, records: Records, reports: Reports, records': Records,
                                    reports': Reports) {
      forall request, review |
        && Decide(records', reports', request, review, store.rules).Hit?
        && !Decide(records, reports, request, review, store.rules).Hit? ::
        exists k | 0 <= k < |done| :: done[k].event.Executed? && done[k].inputs.digest == request.inputDigest
    }

    /** No evidence among these files would have been reused for the package at this look. */
    ghost predicate NoHitAt(package: string, look: nat, records: Records, reports: Reports) {
      forall inputs, review |
        && observe(package, look) == Some(inputs)
        && ReviewFor(policy, package, inputs.source, store.rules.syntax) == Ok(review) ::
        !Decide(records, reports, RequestFor(package, inputs.digest), review, store.rules).Hit?
    }

    /** Runs every package in sorted order, stopping at the first failure. What
        was done before a failure stays evidenced. With no file operation
        failing, a package that had evidence is never the one that fails. */
    method Run() returns (failure: Option<Failure>, ghost done: seq<Done>, ghost stopped: nat)
      modifies this`looks, this`toolRuns, store
      ensures Grows(old(store.records), store.records) && Grows(old(store.reports), store.reports)
      ensures |done| <= |policy.packages| && (failure.None? <==> |done| == |policy.packages|)
      ensures |Ordered()| == |policy.packages|
      ensures Accounts(Ordered(), done, old(looks), looks, old(store.records), old(store.reports), store.records,
                       store.reports)
      ensures HitsAreExecuted(done, old(store.records), old(store.reports), store.records, store.reports)
      ensures failure.Some? ==> old(looks) <= stopped < looks
      ensures old(toolRuns) + Executions(done) <= toolRuns
      ensures toolRuns <= old(toolRuns) + Executions(done) + if failure.None? then 0 else 1
      ensures old(store.clock) <= store.clock
      ensures failure.Some? && store.QuietSince(old(store.clock)) ==>
        NoHitAt(Ordered()[|done|], stopped, old(store.records), old(store.reports))
    {
      hide Sort, Grows, Accounts, Ran, HitsAreExecuted, NoHitAt, Evidenced, Reuses, Seen;
      var packages := Sort(policy.packages, LexLe);
      SortPermutes(policy.packages, LexLe);
      SameBagSameMembers(packages, policy.packages);
      GrowsNothing(store.records);
      GrowsNothing(store.reports);
      NothingAdded(packages, looks, store.records, store.reports);
      done, stopped := [], 0;
      for index := 0 to |packages|
        invariant old(store.clock) <= store.clock && old(looks) <= looks
        invariant |done| == index && toolRuns == old(toolRuns) + Executions(done)
        invariant Grows(old(store.records), store.records) && Grows(old(store.reports), store.reports)
        invariant Accounts(packages, done, old(looks), looks, old(store.records), old(store.reports), store.records,
                           store.reports)
      {
        ghost var records, reports, look := store.records, store.reports, looks;
        var r;
        ghost var entry;
        r, entry := RunNext(packages[index], old(store.records), old(store.reports));
        GrowsTwice(old(store.records), records, store.records);
        GrowsTwice(old(store.reports), reports, store.reports);
        AccountsStep(packages, done, entry, r, old(looks), look, looks, old(store.records), old(store.reports), records,
                     reports);
        if r.Err? {
          AccountsMean(packages, done, old(looks), looks, old(store.records), old(store.reports));
          return Some(r.error), done, look;
        }
        assert (done + [entry])[..index] == done;
        done := done + [entry];
      }
      AccountsMean(packages, done, old(looks), looks, old(store.records), old(store.reports));
      failure := None;
    }

    lemma AccountsMean(packages: seq<string>, done: seq<Done>, from: nat, to: nat, records: Records, reports: Reports)
      requires Accounts(packages, done, from, to, records, reports, store.records, store.reports)
      ensures HitsAreExecuted(done, records, reports, store.records, store.reports)
    {
      hide OnlyRecorded, OnlyProduced, HitsAreExecuted, Accounted;
      NewHitsAreExecuted(packages, done, from, to, records, reports, store.records, store.reports);
    }

    /** The inputs of these packages never change from look `from` on. */
    ghost predicate Unchanged(first: seq<Done>, from: nat)
      requires |first| <= |Ordered()|
    {
      forall k, look: nat | 0 <= k < |first| && from <= look :: observe(Ordered()[k], look) == Some(first[k].inputs)
    }

    /** A run after one that finished the packages of `first`, whether or not that
        one failed. A package whose inputs are seen unchanged is reused, with the
        counts it had. If no file operation fails and none of their inputs
        changes, all these packages are passed without running the tool. */
    method Resume(ghost first: seq<Done>)
      returns (failure: Option<Failure>, ghost second: seq<Done>, ghost stopped: nat)
      requires |first| <= |policy.packages| == |Ordered()|
      requires forall k | 0 <= k < |first| :: Evidenced(Ordered()[k], first[k])
      modifies this`looks, this`toolRuns, store
      ensures Grows(old(store.records), store.records) && Grows(old(store.reports), store.reports)
      ensures |second| <= |policy.packages| && (failure.None? <==> |second| == |policy.packages|)
      ensures Accounts(Ordered(), second, old(looks), looks, old(store.records), old(store.reports), store.records,
                       store.reports)
      ensures HitsAreExecuted(second, old(store.records), old(store.reports), store.records, store.reports)
      ensures forall k | 0 <= k < |first| && k < |second| && second[k].inputs == first[k].inputs ::
        second[k].event == Reused(first[k].event.summary)
      ensures failure.Some? ==> old(looks) <= stopped < looks
      ensures failure.Some? && |second| < |first| && store.QuietSince(old(store.clock)) ==>
        observe(Ordered()[|second|], stopped) != Some(first[|second|].inputs)
      ensures store.QuietSince(old(store.clock)) && Unchanged(first, old(looks)) ==>
        |first| <= |second| && forall k | 0 <= k < |first| :: second[k].event == Reused(first[k].event.summary)
      ensures old(toolRuns) + Executions(second) <= toolRuns
      ensures toolRuns <= old(toolRuns) + Executions(second) + if failure.None? then 0 else 1
    {
      hide Decide, ReviewFor, Sort, OnlyRecorded, OnlyProduced, Proved, HitsAreExecuted, Grows;
      failure, second, stopped := Run();
    }
  }

  /** One finished package: what it was bound to, what came of it, and at which
      look its inputs were seen. */
  datatype Done = Done(inputs: Inputs, review: Option<Review>, event: Event, look: nat)

  ghost function Executions(done: seq<Done>): nat {
    if done == [] then 0 else Executions(done[..|done| - 1]) + if done[|done| - 1].event.Executed? then 1 else 0
  }

  /** A package that is stuck: a report of another digest is on file, there is no
      record, and the tool's report is acceptable. The run fails. */
  method StuckPackage(syntax: Syntax) returns (r: Result<Event, Failure>)
    ensures r.Err? && Accepted(NO_FILES.(goModule := "other"), None, syntax)
  {
    hide Accepted, Agrees, Decide, ReviewFor, Grows, Campaign.Stuck, Campaign.Fileable, Campaign.Ran;
    hide Campaign.Admissible, Campaign.LaterReview, Campaign.Earned, Campaign.EarnsNothing, Campaign.Deserves;
    var hash := (report: Report) => report.goModule;
    var rules := Rules(_ => true, _ => true, _ => false, _ => false, syntax, "verifier", hash, hash);
    var left := NO_FILES.(goModule := "left");
    var store := new Store(rules, _ => true, map[], map["digest" := Some(left)]);
    var policy := Policy("repository", "module", ["package"], "amd64", map[], [], "version", "verifier");
    var inputs := Inputs("digest", "source");
    var execution := Execution(Clean, Written(Some(NO_FILES.(goModule := "other"))), false);
    var campaign := new Campaign(policy, store, (_, _) => Some(inputs), (_, _) => execution, _ => true, _ => 1);
    NoReviews(policy, syntax);
    OtherIsAccepted(syntax);
    LeftDisagrees(store.reports, rules);
    DisagreeingIsRefused(campaign, "package", inputs, None, execution.written.report.value);
    ghost var seen, review;
    r, seen, review := campaign.RunPackage("package");
  }

  lemma NoReviews(policy: Policy, syntax: Syntax)
    requires policy.reviews == []
    ensures forall package, source :: ReviewFor(policy, package, source, syntax) == Ok(None)
  {
  }

  lemma OtherIsAccepted(syntax: Syntax)
    ensures Accepted(NO_FILES.(goModule := "other"), None, syntax)
  {
  }

  lemma DisagreeingIsRefused(campaign: Campaign, package: string, inputs: Inputs, review: Option<Review>,
                             report: Report)
    requires Filing("mutation", inputs.digest) !in campaign.store.records
    requires !Agrees(campaign.store.reports, inputs.digest, report, review, campaign.store.rules)
    ensures !campaign.Decision(package, inputs, review).Hit?
    ensures forall look :: !campaign.Fileable(package, inputs, review, report, look)
  {
    hide Agrees, ValidRecord, Validated;
  }

  lemma LeftDisagrees(reports: Reports, rules: Rules)
    requires reports == map["digest" := Some(NO_FILES.(goModule := "left"))]
    requires forall report :: rules.hash(report) == rules.legacyHash(report) == report.goModule
    ensures !Agrees(reports, "digest", NO_FILES.(goModule := "other"), None, rules)
  {
    assert |"left"| != |"other"|;
  }
}
