/** Mutation reports: when one is accepted, what is counted, and the canonical
    value its digest is computed from. */
module MutationReport {
  import opened Wrappers
  import opened Sorting
  import opened Text
  import opened Reviews

  datatype Mutation = Mutation(kind: string, status: string, line: int, column: int)

  datatype ReportFile = ReportFile(name: string, mutations: seq<Mutation>)

  datatype Counters = Counters(
    killed: Option<int>, lived: Option<int>, notCovered: Option<int>, notViable: Option<int>,
    total: Option<int>, coverage: Option<real>, efficacy: Option<real>)

  /** A decoded report; `files` is absent when it was null or missing. */
  datatype Report = Report(
    goModule: string, elapsed: Option<string>, files: Option<seq<ReportFile>>,
    counters: Counters, statistics: Option<string>)

  /** A mutant together with the file it is in. */
  datatype Mutant = Mutant(fileName: string, mutation: Mutation)

  datatype Summary = Summary(digest: string, mutants: nat, killed: nat, equivalent: nat)

  datatype Refused =
    | NoFiles | InvalidReviewGiven | UnnamedFile | DuplicateFile | MalformedLocation | DuplicateMutant
    | Unreviewed | NotKilled | ReviewedMissing | PartialCounters | WrongCounters

  // ----- the mutants of a report

  function MutantsOf(file: ReportFile): seq<Mutant> {
    seq(|file.mutations|, i requires 0 <= i < |file.mutations| => Mutant(file.name, file.mutations[i]))
  }

  function Mutants(files: seq<ReportFile>): seq<Mutant> {
    if files == [] then [] else Mutants(files[..|files| - 1]) + MutantsOf(files[|files| - 1])
  }

  predicate Located(mutant: Mutant) {
    mutant.mutation.kind != "" && mutant.mutation.line > 0 && mutant.mutation.column > 0
  }

  function CoordinateOf(mutant: Mutant): Coordinate
    requires Located(mutant)
  {
    Coordinate(mutant.fileName, mutant.mutation.kind, mutant.mutation.line, mutant.mutation.column)
  }

  /** The identity string; mutants without a location have none. */
  function IdentityOf(mutant: Mutant): string {
    if Located(mutant) then MutationIdentity(CoordinateOf(mutant)) else ""
  }

  function CountStatus(mutants: seq<Mutant>, status: string): nat {
    if mutants == [] then 0
    else CountStatus(mutants[..|mutants| - 1], status) + if mutants[|mutants| - 1].mutation.status == status then 1
      else 0
  }

  ghost function LivedIdentities(mutants: seq<Mutant>): set<string> {
    set m | m in mutants && m.mutation.status == "LIVED" :: IdentityOf(m)
  }

  ghost function ReviewedIdentities(review: Option<Review>): set<string> {
    if review.None? then {} else
      set c | c in review.value.mutations && c.line > 0 && c.column > 0 :: MutationIdentity(CandidateCoordinate(c))
  }

  // ----- acceptance

  function ExpectedEfficacy(killed: nat, total: nat): real {
    if total == 0 then 100.0 else killed as real * 100.0 / total as real
  }

  predicate Close(actual: real, expected: real) {
    -0.000000001 <= actual - expected <= 0.000000001
  }

  predicate AllPresent(c: Counters) {
    && c.killed.Some? && c.lived.Some? && c.notCovered.Some? && c.notViable.Some? && c.total.Some?
    && c.coverage.Some? && c.efficacy.Some?
  }

  predicate AllAbsent(c: Counters) {
    && c.killed.None? && c.lived.None? && c.notCovered.None? && c.notViable.None? && c.total.None?
    && c.coverage.None? && c.efficacy.None?
  }

  /** Counters are all absent, which only a report without survivors may
      have, or all present and exact. */
  predicate CountersAgree(c: Counters, killed: nat, equivalent: nat, total: nat) {
    if AllAbsent(c) then equivalent == 0
    else
      && AllPresent(c)
      && c.killed.value == killed && c.lived.value == equivalent && c.notCovered.value == 0
      && c.notViable.value == 0 && c.total.value == total
      && Close(c.coverage.value, 100.0) && Close(c.efficacy.value, ExpectedEfficacy(killed, total))
  }

  /** What is wrong with the counters, if anything. */
  function CheckCounters(c: Counters, killed: nat, equivalent: nat, total: nat): (refused: Option<Refused>)
    ensures refused.None? <==> CountersAgree(c, killed, equivalent, total)
    ensures refused == Some(PartialCounters) <==> !AllPresent(c) && (equivalent > 0 || !AllAbsent(c))
  {
    if (!AllAbsent(c) && !AllPresent(c)) || (equivalent > 0 && AllAbsent(c)) then Some(PartialCounters)
    else if CountersAgree(c, killed, equivalent, total) then None
    else Some(WrongCounters)
  }

  ghost predicate NamesDistinct(files: seq<ReportFile>) {
    && (forall i | 0 <= i < |files| :: files[i].name != "")
    && (forall i, j | 0 <= i < j < |files| :: files[i].name != files[j].name)
  }

  /** Every mutant is located and either killed or survived, and none occurs twice. */
  ghost predicate MutantsSound(mutants: seq<Mutant>) {
    && (forall i | 0 <= i < |mutants| :: Located(mutants[i]))
    && (forall i | 0 <= i < |mutants| ::
         mutants[i].mutation.status == "KILLED" || mutants[i].mutation.status == "LIVED")
    && (forall i, j | 0 <= i < j < |mutants| :: IdentityOf(mutants[i]) != IdentityOf(mutants[j]))
  }

  ghost predicate AcceptedMutants(mutants: seq<Mutant>, review: Option<Review>, counters: Counters) {
    && MutantsSound(mutants)
    && LivedIdentities(mutants) == ReviewedIdentities(review)
    && CountersAgree(counters, CountStatus(mutants, "KILLED"), CountStatus(mutants, "LIVED"), |mutants|)
  }

  /** The whole meaning of acceptance. */
  ghost predicate Accepted(report: Report, review: Option<Review>, syntax: Syntax) {
    && report.files.Some? && NamesDistinct(report.files.value)
    && (review.Some? ==> ValidExecution(review.value, syntax))
    && AcceptedMutants(Mutants(report.files.value), review, report.counters)
  }

  /** A mutant is either killed or lived: nothing is left over. */
  lemma {:induction false} AccountingIsExact(mutants: seq<Mutant>)
    requires forall i | 0 <= i < |mutants| ::
      mutants[i].mutation.status == "KILLED" || mutants[i].mutation.status == "LIVED"
    ensures CountStatus(mutants, "KILLED") + CountStatus(mutants, "LIVED") == |mutants|
  {
    if mutants == [] {
    } else {
      AccountingIsExact(mutants[..|mutants| - 1]);
      assert mutants[|mutants| - 1].mutation.status == "KILLED" || mutants[|mutants| - 1].mutation.status == "LIVED";
    }
  }

  /** In an accepted report the survivors are exactly the reviewed coordinates,
      even if names in the report contain NUL. */
  lemma SurvivorsAreReviewed(report: Report, review: Review, syntax: Syntax, at: Coordinate)
    requires Accepted(report, Some(review), syntax)
    ensures (exists m | m in Mutants(report.files.value) ::
        m.mutation.status == "LIVED" && Located(m) && CoordinateOf(m) == at)
      <==> (exists c | c in review.mutations :: c.line > 0 && c.column > 0 && CandidateCoordinate(c) == at)
  {
    hide ValidRelative, MutationIdentity;
    var mutants := Mutants(report.files.value);
    if exists m | m in mutants :: m.mutation.status == "LIVED" && Located(m) && CoordinateOf(m) == at {
      var m :| m in mutants && m.mutation.status == "LIVED" && Located(m) && CoordinateOf(m) == at;
      assert IdentityOf(m) in LivedIdentities(mutants);
      var c :| c in review.mutations && c.line > 0 && c.column > 0
        && MutationIdentity(CandidateCoordinate(c)) == IdentityOf(m);
      WellFormedCoordinate(c, syntax);
      IdentityDecides(at, CandidateCoordinate(c));
    }
    if exists c | c in review.mutations :: c.line > 0 && c.column > 0 && CandidateCoordinate(c) == at {
      var c :| c in review.mutations && c.line > 0 && c.column > 0 && CandidateCoordinate(c) == at;
      assert MutationIdentity(at) in ReviewedIdentities(Some(review));
      var m :| m in mutants && m.mutation.status == "LIVED" && IdentityOf(m) == MutationIdentity(at);
      assert Located(m);
      WellFormedCoordinate(c, syntax);
      IdentityDecides(CoordinateOf(m), at);
    }
  }

  // ----- acceptance by coordinates

  ghost predicate CoordinatesSound(mutants: seq<Mutant>) {
    && (forall i | 0 <= i < |mutants| :: Located(mutants[i]))
    && (forall i | 0 <= i < |mutants| ::
         mutants[i].mutation.status == "KILLED" || mutants[i].mutation.status == "LIVED")
    && (forall i, j | 0 <= i < j < |mutants| :: CoordinateOf(mutants[i]) != CoordinateOf(mutants[j]))
  }

  ghost function LivedCoordinates(mutants: seq<Mutant>): set<Coordinate> {
    set m | m in mutants && m.mutation.status == "LIVED" && Located(m) :: CoordinateOf(m)
  }

  ghost function ReviewedCoordinates(review: Option<Review>): set<Coordinate> {
    if review.None? then {} else
      set c | c in review.value.mutations && c.line > 0 && c.column > 0 :: CandidateCoordinate(c)
  }

  /** What acceptance is meant to be, with no identity strings in it. */
  ghost predicate AcceptedByCoordinates(report: Report, review: Option<Review>, syntax: Syntax) {
    && report.files.Some? && NamesDistinct(report.files.value)
    && (review.Some? ==> ValidExecution(review.value, syntax))
    && CoordinatesSound(Mutants(report.files.value))
    && LivedCoordinates(Mutants(report.files.value)) == ReviewedCoordinates(review)
    && CountersAgree(report.counters, CountStatus(Mutants(report.files.value), "KILLED"),
                     CountStatus(Mutants(report.files.value), "LIVED"), |Mutants(report.files.value)|)
  }

  /** No two different mutants at one position have file names and kinds that run
      together to the same string. */
  ghost predicate Separable(mutants: seq<Mutant>) {
    forall i, j | 0 <= i < j < |mutants| && Located(mutants[i]) && Located(mutants[j]) ::
      SeparablePair(CoordinateOf(mutants[i]), CoordinateOf(mutants[j]))
  }

  ghost predicate SeparablePair(a: Coordinate, b: Coordinate) {
    a.line == b.line && a.column == b.column && Joined(a) == Joined(b) ==> a == b
  }

  lemma SoundIdentities(mutants: seq<Mutant>)
    ensures MutantsSound(mutants) <==> CoordinatesSound(mutants) && Separable(mutants)
  {
    hide MutationIdentity, Joined;
    if forall i | 0 <= i < |mutants| :: Located(mutants[i]) {
      forall i, j | 0 <= i < j < |mutants|
        ensures IdentityOf(mutants[i]) != IdentityOf(mutants[j]) <==>
          && CoordinateOf(mutants[i]) != CoordinateOf(mutants[j])
          && SeparablePair(CoordinateOf(mutants[i]), CoordinateOf(mutants[j]))
      {
        CollisionIsExact(CoordinateOf(mutants[i]), CoordinateOf(mutants[j]));
      }
    }
  }

  /** The reviewed survivors are the same by identity and by coordinate, since a
      reviewed identity decides its coordinate. */
  lemma SurvivorsBothWays(mutants: seq<Mutant>, review: Option<Review>, syntax: Syntax)
    requires forall i | 0 <= i < |mutants| :: Located(mutants[i])
    requires review.Some? ==> ValidExecution(review.value, syntax)
    ensures LivedIdentities(mutants) == ReviewedIdentities(review) <==>
      LivedCoordinates(mutants) == ReviewedCoordinates(review)
  {
    hide MutationIdentity, ValidRelative;
    forall m | m in mutants ensures Located(m) {
      var i :| 0 <= i < |mutants| && mutants[i] == m;
    }
    var lived, reviewed := LivedCoordinates(mutants), ReviewedCoordinates(review);
    assert LivedIdentities(mutants) == set at | at in lived :: MutationIdentity(at) by {
      forall m | m in mutants && m.mutation.status == "LIVED"
        ensures CoordinateOf(m) in lived && IdentityOf(m) == MutationIdentity(CoordinateOf(m))
      {
      }
    }
    assert ReviewedIdentities(review) == set at | at in reviewed :: MutationIdentity(at) by {
      if review.Some? {
        forall c | c in review.value.mutations && c.line > 0 && c.column > 0
          ensures CandidateCoordinate(c) in reviewed
        {
        }
      }
    }
    forall a, b | b in reviewed && MutationIdentity(a) == MutationIdentity(b) ensures a == b {
      var c :| c in review.value.mutations && c.line > 0 && c.column > 0 && CandidateCoordinate(c) == b;
      WellFormedCoordinate(c, syntax);
      IdentityDecides(a, b);
    }
    SameImages(lived, reviewed);
  }

  lemma SameImages(lived: set<Coordinate>, reviewed: set<Coordinate>)
    requires forall a, b | b in reviewed && MutationIdentity(a) == MutationIdentity(b) :: a == b
    ensures (set at | at in lived :: MutationIdentity(at)) == (set at | at in reviewed :: MutationIdentity(at)) <==>
      lived == reviewed
  {
    hide MutationIdentity;
    var x, y := set at | at in lived :: MutationIdentity(at), set at | at in reviewed :: MutationIdentity(at);
    if x == y {
      forall at | at in lived ensures at in reviewed {
        assert MutationIdentity(at) in x;
      }
      forall at | at in reviewed ensures at in lived {
        assert MutationIdentity(at) in y;
      }
    }
  }

  /** A report is accepted exactly when it is acceptable by its coordinates and no
      two of its mutants run together. */
  lemma AcceptanceByCoordinates(report: Report, review: Option<Review>, syntax: Syntax)
    ensures Accepted(report, review, syntax) <==>
      AcceptedByCoordinates(report, review, syntax) && Separable(Mutants(report.files.value))
  {
    hide ValidExecution, LivedIdentities, LivedCoordinates, ReviewedIdentities, ReviewedCoordinates, CountersAgree;
    hide IdentityOf, Separable, NamesDistinct;
    if report.files.Some? && (review.Some? ==> ValidExecution(review.value, syntax)) {
      var mutants := Mutants(report.files.value);
      SoundIdentities(mutants);
      if CoordinatesSound(mutants) {
        SurvivorsBothWays(mutants, review, syntax);
      }
    }
  }

  /** Names without NUL never run together, so the two notions agree on reports
      whose file names and kinds hold none. */
  lemma NoNulIsSeparable(mutants: seq<Mutant>)
    requires forall m | m in mutants :: NUL !in m.fileName && NUL !in m.mutation.kind
    ensures Separable(mutants)
  {
    hide MutationIdentity, Joined;
    forall i, j | 0 <= i < j < |mutants| && Located(mutants[i]) && Located(mutants[j])
      ensures SeparablePair(CoordinateOf(mutants[i]), CoordinateOf(mutants[j]))
    {
      var a, b := CoordinateOf(mutants[i]), CoordinateOf(mutants[j]);
      CollisionIsExact(a, b);
      if MutationIdentity(a) == MutationIdentity(b) {
        IdentityDecides(a, b);
      }
    }
  }

  lemma AgreeWithoutNul(report: Report, review: Option<Review>, syntax: Syntax)
    requires report.files.Some? && forall m | m in Mutants(report.files.value) ::
      NUL !in m.fileName && NUL !in m.mutation.kind
    ensures Accepted(report, review, syntax) <==> AcceptedByCoordinates(report, review, syntax)
  {
    hide Accepted, AcceptedByCoordinates, Separable, Mutants;
    NoNulIsSeparable(Mutants(report.files.value));
    AcceptanceByCoordinates(report, review, syntax);
  }

  /** A report in which two different mutants run together: acceptable by its
      coordinates, and refused. */
  function CollidingReport(): Report {
    Report("", None, Some([ReportFile("a", [First()]), ReportFile(['a', NUL, 'b'], [Second()])]),
      Counters(None, None, None, None, None, None, None), None)
  }

  function First(): Mutation { Mutation(['b', NUL, 'c'], "KILLED", 1, 1) }

  function Second(): Mutation { Mutation("c", "KILLED", 1, 1) }

  lemma CollidingReportIsRefused(syntax: Syntax)
    ensures AcceptedByCoordinates(CollidingReport(), None, syntax) && !Accepted(CollidingReport(), None, syntax)
  {
    hide CountersAgree, CountStatus, Separable, Accepted, SeparablePair, Mutants, MutantsOf, Joined;
    var x, y := Mutant("a", First()), Mutant(['a', NUL, 'b'], Second());
    MutantsOfTwo(ReportFile("a", [First()]), ReportFile(['a', NUL, 'b'], [Second()]));
    KilledOnly(x, y);
    NoCounters(CountStatus([x, y], "KILLED"));
    TheyRunTogether(x, y);
    AcceptanceByCoordinates(CollidingReport(), None, syntax);
  }

  lemma MutantsOfTwo(a: ReportFile, b: ReportFile)
    requires |a.mutations| == 1 && |b.mutations| == 1
    ensures Mutants([a, b]) == [Mutant(a.name, a.mutations[0]), Mutant(b.name, b.mutations[0])]
  {
    var both := [a, b];
    assert both[..1] == [a] && [a][..0] == [];
    assert Mutants([a]) == Mutants([]) + MutantsOf(a);
    assert Mutants(both) == Mutants([a]) + MutantsOf(b);
  }

  lemma KilledOnly(x: Mutant, y: Mutant)
    requires x.mutation.status == "KILLED" && y.mutation.status == "KILLED"
    ensures CountStatus([x, y], "LIVED") == 0 && LivedCoordinates([x, y]) == {}
  {
    assert |"KILLED"| != |"LIVED"|;
    var both := [x, y];
    assert both[..1] == [x] && [x][..0] == [];
    assert CountStatus([x], "LIVED") == 0;
    assert CountStatus(both, "LIVED") == CountStatus([x], "LIVED");
  }

  lemma NoCounters(killed: nat)
    ensures CountersAgree(Counters(None, None, None, None, None, None, None), killed, 0, 2)
  {
  }

  lemma TheyRunTogether(x: Mutant, y: Mutant)
    requires x == Mutant("a", First()) && y == Mutant(['a', NUL, 'b'], Second())
    ensures CoordinatesSound([x, y]) && !Separable([x, y])
  {
    var a, b := CoordinateOf(x), CoordinateOf(y);
    assert Joined(a) == Joined(b);
    assert |a.fileName| != |b.fileName|;
    assert !SeparablePair(CoordinateOf([x, y][0]), CoordinateOf([x, y][1]));
  }

  // ----- validation

  /** The state of the accounting after the mutants `seen`. */
  ghost predicate Tallied(seen: seq<Mutant>, review: Option<Review>, reviewed: set<string>, identities: set<string>,
                          killed: nat, equivalent: nat, mutants: nat) {
    && MutantsSound(seen)
    && identities == (set m | m in seen :: IdentityOf(m))
    && LivedIdentities(seen) <= ReviewedIdentities(review)
    && reviewed == ReviewedIdentities(review) - LivedIdentities(seen)
    && killed == CountStatus(seen, "KILLED") && equivalent == CountStatus(seen, "LIVED") && mutants == |seen|
  }

  lemma TallyOne(seen: seq<Mutant>, m: Mutant, review: Option<Review>, reviewed: set<string>, identities: set<string>,
                 killed: nat, equivalent: nat, mutants: nat)
    requires Tallied(seen, review, reviewed, identities, killed, equivalent, mutants)
    requires Located(m) && IdentityOf(m) !in identities
    ensures m.mutation.status == "KILLED" ==>
      Tallied(seen + [m], review, reviewed, identities + {IdentityOf(m)}, killed + 1, equivalent, mutants + 1)
    ensures m.mutation.status == "LIVED" && IdentityOf(m) in reviewed ==>
      Tallied(seen + [m], review, reviewed - {IdentityOf(m)}, identities + {IdentityOf(m)}, killed, equivalent + 1,
              mutants + 1)
  {
    hide IdentityOf;
    var more := seen + [m];
    assert more[..|seen|] == seen;
    assert forall x :: x in more <==> x in seen || x == m;
    if m.mutation.status == "KILLED" {
      assert LivedIdentities(more) == LivedIdentities(seen);
    } else if m.mutation.status == "LIVED" {
      assert LivedIdentities(more) == LivedIdentities(seen) + {IdentityOf(m)};
    }
  }

  /** One bad mutant spoils the report it is in. */
  lemma BadMutant(seen: seq<Mutant>, m: Mutant, all: seq<Mutant>, review: Option<Review>)
    requires seen + [m] <= all
    requires || !Located(m) || (m.mutation.status != "KILLED" && m.mutation.status != "LIVED")
             || (exists x | x in seen :: IdentityOf(x) == IdentityOf(m))
             || (m.mutation.status == "LIVED" && IdentityOf(m) !in ReviewedIdentities(review))
    ensures !(MutantsSound(all) && LivedIdentities(all) == ReviewedIdentities(review))
  {
    hide IdentityOf;
    var at := |seen|;
    assert all[at] == (seen + [m])[at] == m;
    assert m in all;
    if exists x | x in seen :: IdentityOf(x) == IdentityOf(m) {
      var k :| 0 <= k < |seen| && IdentityOf(seen[k]) == IdentityOf(m);
      assert all[k] == (seen + [m])[k];
    } else if m.mutation.status == "LIVED" && IdentityOf(m) !in ReviewedIdentities(review) {
      assert IdentityOf(m) in LivedIdentities(all);
    }
  }

  lemma {:induction false} MutantsPrefix(files: seq<ReportFile>, i: nat)
    requires i < |files|
    ensures Mutants(files[..i]) + MutantsOf(files[i]) <= Mutants(files)
    decreases |files| - i
  {
    var front := files[..|files| - 1];
    assert front[..i] == files[..i];
    if i + 1 == |files| {
    } else {
      assert files[..i + 1][..i] == files[..i];
      MutantsPrefix(files, i + 1);
    }
  }

  lemma MutantsExtend(files: seq<ReportFile>, i: nat)
    requires i < |files|
    ensures Mutants(files[..i + 1]) == Mutants(files[..i]) + MutantsOf(files[i])
  {
    assert files[..i + 1][..i] == files[..i];
  }

  /** Accounts for the mutants of one file. */
  method CountFile(file: ReportFile, ghost before: seq<Mutant>, ghost all: seq<Mutant>, ghost review: Option<Review>,
                   reviewed0: set<string>, identities0: set<string>, killed0: nat, equivalent0: nat, mutants0: nat)
    returns (refused: Option<Refused>, reviewed: set<string>, identities: set<string>, killed: nat, equivalent: nat,
             mutants: nat)
    requires Tallied(before, review, reviewed0, identities0, killed0, equivalent0, mutants0)
    requires before + MutantsOf(file) <= all
    ensures refused.None? ==>
      Tallied(before + MutantsOf(file), review, reviewed, identities, killed, equivalent, mutants)
    ensures refused.Some? ==> !(MutantsSound(all) && LivedIdentities(all) == ReviewedIdentities(review))
  {
    hide IdentityOf, MutantsSound, Tallied;
    reviewed, identities, killed, equivalent, mutants := reviewed0, identities0, killed0, equivalent0, mutants0;
    ghost var here := MutantsOf(file);
    assert before + here[..0] == before;
    for i := 0 to |file.mutations|
      invariant Tallied(before + here[..i], review, reviewed, identities, killed, equivalent, mutants)
    {
      var candidate := Mutant(file.name, file.mutations[i]);
      ghost var seen := before + here[..i];
      assert seen + [candidate] == before + here[..i + 1];
      PrefixOfPrefix(before, here, i + 1, all);
      if !Located(candidate) {
        BadMutant(seen, candidate, all, review);
        refused := Some(MalformedLocation);
        return;
      }
      var identity := IdentityOf(candidate);
      IdentitiesSeen(seen, review, reviewed, identities, killed, equivalent, mutants);
      if identity in identities {
        BadMutant(seen, candidate, all, review);
        refused := Some(DuplicateMutant);
        return;
      }
      TallyOne(seen, candidate, review, reviewed, identities, killed, equivalent, mutants);
      if candidate.mutation.status == "KILLED" {
        killed := killed + 1;
      } else if candidate.mutation.status == "LIVED" {
        if identity !in reviewed {
          BadMutant(seen, candidate, all, review);
          refused := Some(Unreviewed);
          return;
        }
        reviewed := reviewed - {identity};
        equivalent := equivalent + 1;
      } else {
        BadMutant(seen, candidate, all, review);
        refused := Some(NotKilled);
        return;
      }
      identities := identities + {identity};
      mutants := mutants + 1;
    }
    assert here[..|file.mutations|] == here;
    refused := None;
  }

  lemma PrefixOfPrefix(before: seq<Mutant>, here: seq<Mutant>, i: nat, all: seq<Mutant>)
    requires before + here <= all && i <= |here|
    ensures before + here[..i] <= all
  {
    assert before + here == before + here[..i] + here[i..];
  }

  lemma IdentitiesSeen(seen: seq<Mutant>, review: Option<Review>, reviewed: set<string>, identities: set<string>,
                       killed: nat, equivalent: nat, mutants: nat)
    requires Tallied(seen, review, reviewed, identities, killed, equivalent, mutants)
    ensures identities == (set m | m in seen :: IdentityOf(m))
    ensures forall id | id !in identities && id !in reviewed :: id !in ReviewedIdentities(review)
  {
  }

  lemma TallyEnds(all: seq<Mutant>, review: Option<Review>, reviewed: set<string>, identities: set<string>,
                  killed: nat, equivalent: nat, mutants: nat)
    requires Tallied(all, review, reviewed, identities, killed, equivalent, mutants)
    ensures MutantsSound(all)
    ensures reviewed == {} <==> LivedIdentities(all) == ReviewedIdentities(review)
    ensures killed == CountStatus(all, "KILLED") && equivalent == CountStatus(all, "LIVED") && mutants == |all|
  {
    hide LivedIdentities, ReviewedIdentities, MutantsSound, IdentityOf, CountStatus;
    var lived, admitted := LivedIdentities(all), ReviewedIdentities(review);
    forall id | id in admitted && id !in lived ensures id in reviewed {
    }
  }

  /** Accepts exactly the reports that account for every mutant. */
  method ValidateReport(report: Report, review: Option<Review>, syntax: Syntax, hash: Report -> string)
    returns (r: Result<Summary, Refused>)
    ensures r.Ok? <==> Accepted(report, review, syntax)
    ensures r.Ok? ==> var mutants := Mutants(report.files.value);
      r.value == Summary(hash(Canonical(report)), |mutants|, CountStatus(mutants, "KILLED"),
                         CountStatus(mutants, "LIVED"))
  {
    hide Tallied, ValidExecution, AcceptedMutants, Canonical;
    if report.files.None? {
      return Err(NoFiles);
    }
    var reviewed: set<string> := {};
    if review.Some? {
      var valid := ValidateExecution(review.value, syntax);
      if !valid {
        return Err(InvalidReviewGiven);
      }
    }
    reviewed := CollectReviewed(review);
    r := Account(report, review, reviewed, hash);
  }

  /** The identities a valid review admits. */
  method CollectReviewed(review: Option<Review>) returns (reviewed: set<string>)
    ensures reviewed == ReviewedIdentities(review)
  {
    hide MutationIdentity;
    reviewed := {};
    if review.Some? {
      var candidates := review.value.mutations;
      for i := 0 to |candidates|
        invariant reviewed == set c | c in candidates[..i] && c.line > 0 && c.column > 0 ::
          MutationIdentity(CandidateCoordinate(c))
      {
        assert candidates[..i + 1] == candidates[..i] + [candidates[i]];
        if candidates[i].line > 0 && candidates[i].column > 0 {
          reviewed := reviewed + {MutationIdentity(CandidateCoordinate(candidates[i]))};
        }
      }
      assert candidates[..|candidates|] == candidates;
    }
  }

  /** The loops over files and mutants, and the check of the counters. */
  method Account(report: Report, ghost review: Option<Review>, reviewed0: set<string>, hash: Report -> string)
    returns (r: Result<Summary, Refused>)
    requires report.files.Some? && reviewed0 == ReviewedIdentities(review)
    ensures r.Ok? <==>
      NamesDistinct(report.files.value) && AcceptedMutants(Mutants(report.files.value), review, report.counters)
    ensures r.Ok? ==> var mutants := Mutants(report.files.value);
      r.value == Summary(hash(Canonical(report)), |mutants|, CountStatus(mutants, "KILLED"),
                         CountStatus(mutants, "LIVED"))
  {
    hide Tallied, Canonical, MutantsOf, MutantsSound, CountersAgree, CountStatus, LivedIdentities, ReviewedIdentities;
    var files := report.files.value;
    ghost var all := Mutants(files);
    var reviewed, identities: set<string> := reviewed0, {};
    var killed: nat, equivalent: nat, mutants: nat := 0, 0, 0;
    var names: set<string> := {};
    TallyNothing(review);
    for i := 0 to |files|
      invariant forall k | 0 <= k < i :: files[k].name != ""
      invariant forall j, k | 0 <= j < k < i :: files[j].name != files[k].name
      invariant names == set k | 0 <= k < i :: files[k].name
      invariant Tallied(Mutants(files[..i]), review, reviewed, identities, killed, equivalent, mutants)
    {
      var file := files[i];
      if file.name == "" {
        return Err(UnnamedFile);
      }
      if file.name in names {
        return Err(DuplicateFile);
      }
      names := names + {file.name};
      MutantsPrefix(files, i);
      MutantsExtend(files, i);
      var refused;
      refused, reviewed, identities, killed, equivalent, mutants :=
        CountFile(file, Mutants(files[..i]), all, review, reviewed, identities, killed, equivalent, mutants);
      if refused.Some? {
        return Err(refused.value);
      }
    }
    assert files[..|files|] == files;
    TallyEnds(all, review, reviewed, identities, killed, equivalent, mutants);
    if reviewed != {} {
      return Err(ReviewedMissing);
    }
    var wrong := CheckCounters(report.counters, killed, equivalent, mutants);
    if wrong.Some? {
      return Err(wrong.value);
    }
    r := Ok(Summary(hash(Canonical(report)), mutants, killed, equivalent));
  }

  lemma TallyNothing(review: Option<Review>)
    ensures Tallied(Mutants([]), review, ReviewedIdentities(review), {}, 0, 0, 0)
  {
  }

  // ----- the canonical value

  predicate MutationLe(a: Mutation, b: Mutation) {
    if a.kind != b.kind then LexLe(a.kind, b.kind)
    else a.line < b.line || (a.line == b.line && a.column <= b.column)
  }

  predicate FileLe(a: ReportFile, b: ReportFile) {
    LexLe(a.name, b.name)
  }

  function CanonicalFile(file: ReportFile): ReportFile {
    ReportFile(file.name, Sort(file.mutations, MutationLe))
  }

  /** A report without its elapsed time, its files and mutations sorted. */
  function Canonical(report: Report): Report {
    report.(elapsed := None,
            files := if report.files.None? then None else Some(Sort(Map(CanonicalFile, report.files.value), FileLe)))
  }

  /** Everything a report says apart from elapsed time and order: its other
      fields, and the bag of its files, each with the bag of its mutations. */
  datatype FileBag = FileBag(name: string, mutations: multiset<Mutation>)

  function BagOf(file: ReportFile): FileBag {
    FileBag(file.name, multiset(file.mutations))
  }

  ghost predicate SameUpToOrder(a: Report, b: Report) {
    && a.(elapsed := None, files := None) == b.(elapsed := None, files := None)
    && (a.files.Some? <==> b.files.Some?)
    && (a.files.Some? ==> multiset(Map(BagOf, a.files.value)) == multiset(Map(BagOf, b.files.value)))
  }

  lemma MutationOrder()
    ensures TotalOrder(MutationLe)
  {
    LexOrder();
    forall a, b, c | MutationLe(a, b) && MutationLe(b, c) ensures MutationLe(a, c) {
      if a.kind != b.kind && b.kind != c.kind && a.kind == c.kind {
        LexAntisymmetric(a.kind, b.kind);
      }
    }
  }

  lemma FileOrder()
    ensures TotalOrder(FileLe)
  {
    LexOrder();
  }

  /** Mutations with distinct sort keys, as validation leaves them. */
  ghost predicate KeysDistinct(files: seq<ReportFile>) {
    forall f | f in files :: KeysDecide(f.mutations, MutationLe)
  }

  lemma KeysOfMutations(mutations: seq<Mutation>, a: Mutation, b: Mutation)
    requires MutationLe(a, b) && MutationLe(b, a)
    ensures a.kind == b.kind && a.line == b.line && a.column == b.column
  {
    if a.kind != b.kind {
      LexAntisymmetric(a.kind, b.kind);
    }
  }

  /** Validation leaves no two mutations of a file, and no two files, with equal
      sort keys, so that an unstable sort has only one possible result. */
  lemma AcceptedHasDistinctKeys(report: Report, review: Option<Review>, syntax: Syntax)
    requires Accepted(report, review, syntax)
    ensures KeysDistinct(report.files.value)
    ensures KeysDecide(report.files.value, FileLe) && KeysDecide(Map(CanonicalFile, report.files.value), FileLe)
  {
    var files := report.files.value;
    forall f, x, y | f in files && x in f.mutations && y in f.mutations && MutationLe(x, y) && MutationLe(y, x)
      ensures x == y
    {
      KeysOfMutations(f.mutations, x, y);
      SameKeySameMutation(files, f, x, y);
    }
    var sorted := Map(CanonicalFile, files);
    forall x, y | x in files && y in files && FileLe(x, y) && FileLe(y, x) ensures x == y {
      LexAntisymmetric(x.name, y.name);
    }
    forall x, y | x in sorted && y in sorted && FileLe(x, y) && FileLe(y, x) ensures x == y {
      LexAntisymmetric(x.name, y.name);
      var i :| 0 <= i < |sorted| && sorted[i] == x;
      var j :| 0 <= j < |sorted| && sorted[j] == y;
      assert files[i].name == files[j].name;
    }
  }

  lemma SameKeySameMutation(files: seq<ReportFile>, f: ReportFile, x: Mutation, y: Mutation)
    requires MutantsSound(Mutants(files)) && f in files && x in f.mutations && y in f.mutations
    requires x.kind == y.kind && x.line == y.line && x.column == y.column
    ensures x == y
  {
    hide MutationIdentity;
    var k :| 0 <= k < |files| && files[k] == f;
    var i :| 0 <= i < |f.mutations| && f.mutations[i] == x;
    var j :| 0 <= j < |f.mutations| && f.mutations[j] == y;
    MutantsPrefix(files, k);
    var base := |Mutants(files[..k])|;
    var all := Mutants(files);
    var here := Mutants(files[..k]) + MutantsOf(f);
    assert all[base + i] == here[base + i] == Mutant(f.name, x);
    assert all[base + j] == here[base + j] == Mutant(f.name, y);
    assert IdentityOf(all[base + i]) == IdentityOf(all[base + j]);
  }

  lemma CanonicalFileBag(file: ReportFile)
    ensures BagOf(CanonicalFile(file)) == BagOf(file)
  {
    SortPermutes(file.mutations, MutationLe);
  }

  /** Bags of files decide canonical files, and the other way round. */
  lemma CanonicalFilesAgree(a: seq<ReportFile>, b: seq<ReportFile>)
    requires KeysDistinct(a) && KeysDistinct(b)
    ensures multiset(Map(BagOf, a)) == multiset(Map(BagOf, b)) <==>
      multiset(Map(CanonicalFile, a)) == multiset(Map(CanonicalFile, b))
  {
    forall x, y | x in a && y in b ensures BagOf(x) == BagOf(y) <==> CanonicalFile(x) == CanonicalFile(y) {
      CanonicalFileBag(x);
      CanonicalFileBag(y);
      if BagOf(x) == BagOf(y) {
        MutationOrder();
        SortForgetsOrder(x.mutations, y.mutations, MutationLe);
      }
    }
    if multiset(Map(BagOf, a)) == multiset(Map(BagOf, b)) {
      MapAgree(BagOf, CanonicalFile, a, b);
    }
    if multiset(Map(CanonicalFile, a)) == multiset(Map(CanonicalFile, b)) {
      MapAgree(CanonicalFile, BagOf, a, b);
    }
  }

  /** Two reports, each accepted under some review, have one canonical value
      exactly if they differ only in elapsed time and in the order of files and mutations. */
  lemma CanonicalDecidesContent(a: Report, b: Report, reviewA: Option<Review>, reviewB: Option<Review>, syntax: Syntax)
    requires Accepted(a, reviewA, syntax) && Accepted(b, reviewB, syntax)
    ensures Canonical(a) == Canonical(b) <==> SameUpToOrder(a, b)
  {
    AcceptedHasDistinctKeys(a, reviewA, syntax);
    AcceptedHasDistinctKeys(b, reviewB, syntax);
    var filesA, filesB := Map(CanonicalFile, a.files.value), Map(CanonicalFile, b.files.value);
    CanonicalFilesAgree(a.files.value, b.files.value);
    hide Accepted, KeysDecide, CanonicalFile, BagOf, Map, Sort;
    FileOrder();
    SortPermutes(filesA, FileLe);
    SortPermutes(filesB, FileLe);
    if multiset(filesA) == multiset(filesB) {
      SortForgetsOrder(filesA, filesB, FileLe);
    }
  }

  // ----- acceptance does not depend on order

  function StatusOf(mutant: Mutant): string { mutant.mutation.status }

  function NameOf(file: ReportFile): string { file.name }

  function MutantBag(file: ReportFile): multiset<Mutant> { multiset(MutantsOf(file)) }

  lemma {:induction false} CountIsMultiplicity(mutants: seq<Mutant>, status: string)
    ensures CountStatus(mutants, status) == multiset(Map(StatusOf, mutants))[status]
  {
    if mutants == [] {
    } else {
      var front := mutants[..|mutants| - 1];
      CountIsMultiplicity(front, status);
      MapWithout(StatusOf, mutants, |mutants| - 1);
      assert Without(mutants, |mutants| - 1) == front;
    }
  }

  lemma {:induction false} MutantsAreUnion(files: seq<ReportFile>)
    ensures multiset(Mutants(files)) == Union(Map(MutantBag, files))
  {
    if files == [] {
    } else {
      var front, last := files[..|files| - 1], files[|files| - 1];
      MutantsAreUnion(front);
      var bags := Map(MutantBag, files);
      UnionWithout(bags, |files| - 1);
      assert Without(bags, |files| - 1) == Map(MutantBag, front);
    }
  }

  lemma MutantsOfIsMap(file: ReportFile)
    ensures MutantsOf(file) == Map(m => Mutant(file.name, m), file.mutations)
  {
  }

  lemma SameBagSameMutants(x: ReportFile, y: ReportFile)
    requires BagOf(x) == BagOf(y)
    ensures MutantBag(x) == MutantBag(y) && NameOf(x) == NameOf(y)
  {
    MutantsOfIsMap(x);
    MutantsOfIsMap(y);
    MapPermutes(m => Mutant(x.name, m), x.mutations, y.mutations);
  }

  lemma BagsDecideMutants(a: seq<ReportFile>, b: seq<ReportFile>)
    requires multiset(Map(BagOf, a)) == multiset(Map(BagOf, b))
    ensures multiset(Mutants(a)) == multiset(Mutants(b))
    ensures multiset(Map(NameOf, a)) == multiset(Map(NameOf, b))
  {
    hide BagOf, MutantBag, NameOf, Map, Union, Mutants;
    forall x, y | x in a && y in b && BagOf(x) == BagOf(y)
      ensures MutantBag(x) == MutantBag(y) && NameOf(x) == NameOf(y)
    {
      SameBagSameMutants(x, y);
    }
    MapAgree(BagOf, MutantBag, a, b);
    MapAgree(BagOf, NameOf, a, b);
    MutantsAreUnion(a);
    MutantsAreUnion(b);
    UnionForgetsOrder(Map(MutantBag, a), Map(MutantBag, b));
  }

  lemma NamesFromBag(files: seq<ReportFile>)
    ensures NamesDistinct(files) <==>
      "" !in multiset(Map(NameOf, files)) && forall name :: multiset(Map(NameOf, files))[name] <= 1
  {
    var names := Map(NameOf, files);
    NoDuplicatesBag(names);
    assert NamesDistinct(files) ==> NoDuplicates(names) && "" !in names;
    if "" !in multiset(names) && NoDuplicates(names) {
      forall i | 0 <= i < |files| ensures files[i].name != "" {
        assert names[i] in names;
      }
      forall i, j | 0 <= i < j < |files| ensures files[i].name != files[j].name {
        assert names[i] != names[j];
      }
    }
  }

  lemma SoundFromBag(a: seq<Mutant>, b: seq<Mutant>)
    requires multiset(a) == multiset(b) && MutantsSound(a)
    ensures MutantsSound(b)
  {
    hide IdentityOf, Located;
    SameBagSameMembers(a, b);
    MapPermutes(IdentityOf, a, b);
    var ids, others := Map(IdentityOf, a), Map(IdentityOf, b);
    assert NoDuplicates(ids);
    NoDuplicatesBag(ids);
    NoDuplicatesBag(others);
    forall i | 0 <= i < |b|
      ensures Located(b[i]) && (b[i].mutation.status == "KILLED" || b[i].mutation.status == "LIVED")
    {
      assert b[i] in b;
    }
    forall i, j | 0 <= i < j < |b| ensures IdentityOf(b[i]) != IdentityOf(b[j]) {
      assert others[i] != others[j];
    }
  }

  lemma CountsFromBag(a: seq<Mutant>, b: seq<Mutant>)
    requires multiset(a) == multiset(b)
    ensures |a| == |b| && LivedIdentities(a) == LivedIdentities(b)
    ensures forall status :: CountStatus(a, status) == CountStatus(b, status)
  {
    SameBagSameMembers(a, b);
    MapPermutes(StatusOf, a, b);
    forall status ensures CountStatus(a, status) == CountStatus(b, status) {
      CountIsMultiplicity(a, status);
      CountIsMultiplicity(b, status);
    }
  }

  /** Whether a report is accepted, and what it counts, does not depend on
      elapsed time or on the order of files and mutations. */
  lemma AcceptanceForgetsOrder(a: Report, b: Report, review: Option<Review>, syntax: Syntax)
    requires SameUpToOrder(a, b) && Accepted(a, review, syntax)
    ensures Accepted(b, review, syntax)
    ensures var x, y := Mutants(a.files.value), Mutants(b.files.value);
      |x| == |y| && forall status :: CountStatus(x, status) == CountStatus(y, status)
  {
    hide MutantsSound, NamesDistinct, Mutants, Map, BagOf, LivedIdentities, ReviewedIdentities, CountStatus;
    hide ValidExecution, CountersAgree;
    BagsDecideMutants(a.files.value, b.files.value);
    NamesFromBag(a.files.value);
    NamesFromBag(b.files.value);
    CountsFromBag(Mutants(a.files.value), Mutants(b.files.value));
    SoundFromBag(Mutants(a.files.value), Mutants(b.files.value));
  }
}
