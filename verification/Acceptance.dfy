/** Acceptance of a mutation report, said of the report itself: of its files, their
    mutations and its counters, with none of the notions by which it is checked. */
module Acceptance {
  import opened Wrappers
  import opened Sorting
  import opened Reviews
  import opened MutationReport

  // ----- places in a report

  ghost predicate InReport(files: seq<ReportFile>, at: (nat, nat)) {
    at.0 < |files| && at.1 < |files[at.0].mutations|
  }

  ghost function MutationAt(files: seq<ReportFile>, at: (nat, nat)): Mutation
    requires InReport(files, at)
  {
    files[at.0].mutations[at.1]
  }

  /** The identity string of the mutation at a place. */
  ghost function IdentityAt(files: seq<ReportFile>, at: (nat, nat)): string
    requires InReport(files, at)
    requires MutationAt(files, at).line > 0 && MutationAt(files, at).column > 0
  {
    var m := MutationAt(files, at);
    MutationIdentity(Coordinate(files[at.0].name, m.kind, m.line, m.column))
  }

  ghost function PlacesIn(files: seq<ReportFile>): set<(nat, nat)> {
    set i, k | 0 <= i < |files| && 0 <= k < |files[i].mutations| :: (i, k)
  }

  ghost function PlacesOf(files: seq<ReportFile>, status: string): set<(nat, nat)> {
    set at | at in PlacesIn(files) && MutationAt(files, at).status == status
  }

  /** Places in the order in which mutants are met. */
  ghost function Places(files: seq<ReportFile>): seq<(nat, nat)> {
    if files == [] then []
    else
      var last := |files| - 1;
      var count := |files[last].mutations|;
      Places(files[..last]) + seq(count, (k: int) requires 0 <= k < count => (last, k as nat))
  }

  lemma {:induction false} PlacesOfMutants(files: seq<ReportFile>)
    ensures |Places(files)| == |Mutants(files)|
    ensures forall x | 0 <= x < |Places(files)| ::
      var at := Places(files)[x];
      InReport(files, at) && Mutants(files)[x] == Mutant(files[at.0].name, MutationAt(files, at))
    ensures forall at :: at in Places(files) <==> at in PlacesIn(files)
    ensures NoDuplicates(Places(files))
  {
    if files != [] {
      var last := |files| - 1;
      PlacesOfMutants(files[..last]);
      forall at | at in PlacesIn(files) ensures at in Places(files) {
        if at.0 < last {
          assert at in PlacesIn(files[..last]);
        } else {
          assert Places(files)[|Places(files[..last])| + at.1] == at;
        }
      }
      forall at | at in Places(files) ensures at in PlacesIn(files) {
        var x :| 0 <= x < |Places(files)| && Places(files)[x] == at;
        if x < |Places(files[..last])| {
          assert at in Places(files[..last]);
        }
      }
    }
  }

  ghost function PlacesWith(mutants: seq<Mutant>, places: seq<(nat, nat)>, status: string): set<(nat, nat)>
    requires |places| == |mutants|
  {
    set x | 0 <= x < |mutants| && mutants[x].mutation.status == status :: places[x]
  }

  lemma {:induction false} CountIsSize(mutants: seq<Mutant>, places: seq<(nat, nat)>, status: string)
    requires |places| == |mutants| && NoDuplicates(places)
    ensures CountStatus(mutants, status) == |PlacesWith(mutants, places, status)|
  {
    hide PlacesWith;
    if mutants != [] {
      var last := |mutants| - 1;
      CountIsSize(mutants[..last], places[..last], status);
      OneMorePlace(mutants, places, status);
    } else {
      NoPlaces(mutants, places, status);
    }
  }

  lemma NoPlaces(mutants: seq<Mutant>, places: seq<(nat, nat)>, status: string)
    requires |places| == |mutants| == 0
    ensures PlacesWith(mutants, places, status) == {}
  {
  }

  lemma OneMorePlace(mutants: seq<Mutant>, places: seq<(nat, nat)>, status: string)
    requires |places| == |mutants| > 0 && NoDuplicates(places)
    ensures var last := |mutants| - 1;
      var before := PlacesWith(mutants[..last], places[..last], status);
      && places[last] !in before
      && PlacesWith(mutants, places, status) ==
           before + if mutants[last].mutation.status == status then {places[last]} else {}
  {
    var last := |mutants| - 1;
    var before, all := PlacesWith(mutants[..last], places[..last], status), PlacesWith(mutants, places, status);
    forall at | at in before ensures at in all && at != places[last] {
      var x :| 0 <= x < last && mutants[..last][x].mutation.status == status && places[..last][x] == at;
      assert mutants[x].mutation.status == status && places[x] == at;
    }
    forall at | at in all && at != places[last] ensures at in before {
      var x :| 0 <= x < |mutants| && mutants[x].mutation.status == status && places[x] == at;
      assert mutants[..last][x].mutation.status == status && places[..last][x] == at;
    }
  }

  /** The counts are the numbers of places with the status. */
  lemma CountsArePlaces(files: seq<ReportFile>, status: string)
    ensures CountStatus(Mutants(files), status) == |PlacesOf(files, status)|
    ensures |Mutants(files)| == |PlacesIn(files)|
  {
    var mutants, places := Mutants(files), Places(files);
    PlacesOfMutants(files);
    CountIsSize(mutants, places, status);
    var found := PlacesWith(mutants, places, status);
    forall at ensures at in found <==> at in PlacesOf(files, status) {
      if at in PlacesOf(files, status) {
        assert at in places;
        var x :| 0 <= x < |places| && places[x] == at;
        assert mutants[x].mutation.status == status;
      }
    }
    assert found == PlacesOf(files, status);
    SizeOfDistinct(places, PlacesIn(files));
  }

  lemma {:induction false} SizeOfDistinct<T(!new)>(s: seq<T>, keys: set<T>)
    requires NoDuplicates(s) && forall x :: x in s <==> x in keys
    ensures |s| == |keys|
    decreases |s|
  {
    if s == [] {
      assert keys == {};
    } else {
      var front, last := s[..|s| - 1], s[|s| - 1];
      assert last in s;
      forall x ensures x in front <==> x in keys - {last} {
        if x in front {
          assert x in s;
        }
      }
      SizeOfDistinct(front, keys - {last});
    }
  }

  // ----- the counters

  /** There are no counters, and no survivor either; or all seven are there, five
      of them exact, and coverage and efficacy as close as the check asks for. */
  ghost predicate CountersSay(c: Counters, killed: nat, lived: nat, total: nat) {
    || (c == Counters(None, None, None, None, None, None, None) && lived == 0)
    || exists coverage, efficacy ::
         && c == Counters(Some(killed), Some(lived), Some(0), Some(0), Some(total), Some(coverage), Some(efficacy))
         && -0.000000001 <= coverage - 100.0 <= 0.000000001
         && if total == 0 then -0.000000001 <= efficacy - 100.0 <= 0.000000001
            else -0.000000001 * total as real <= efficacy * total as real - 100.0 * killed as real
                   <= 0.000000001 * total as real
  }

  lemma CountersMeaning(c: Counters, killed: nat, lived: nat, total: nat)
    ensures CountersAgree(c, killed, lived, total) <==> CountersSay(c, killed, lived, total)
  {
    if AllPresent(c) {
      var coverage, efficacy := c.coverage.value, c.efficacy.value;
      if total > 0 {
        Scaled(efficacy, killed, total);
      }
      if CountersAgree(c, killed, lived, total) {
        assert c == Counters(Some(killed), Some(lived), Some(0), Some(0), Some(total), Some(coverage), Some(efficacy));
      }
    }
  }

  /** Closeness to a fraction, without dividing. */
  lemma Scaled(efficacy: real, killed: nat, total: nat)
    requires total > 0
    ensures Close(efficacy, ExpectedEfficacy(killed, total)) <==>
      -0.000000001 * total as real <= efficacy * total as real - 100.0 * killed as real <= 0.000000001 * total as real
  {
    var t, e := total as real, ExpectedEfficacy(killed, total);
    assert e * t == 100.0 * killed as real;
    var d := efficacy - e;
    assert d * t == efficacy * t - e * t;
    Multiplied(d, 0.000000001, t);
    Multiplied(-0.000000001, d, t);
  }

  lemma Multiplied(a: real, b: real, t: real)
    requires t > 0.0
    ensures a <= b <==> a * t <= b * t
  {
    if a > b {
      assert (a - b) * t > 0.0;
    }
    if a <= b {
      assert (b - a) * t >= 0.0;
    }
  }

  // ----- the report

  /** Every mutation is located and killed or survived, and no two have one identity. */
  ghost predicate MutationsSound(files: seq<ReportFile>) {
    && (forall at | at in PlacesIn(files) ::
          var m := MutationAt(files, at);
          m.kind != "" && m.line > 0 && m.column > 0 && (m.status == "KILLED" || m.status == "LIVED"))
    && (forall a, b | a in PlacesIn(files) && b in PlacesIn(files) && a != b ::
          IdentityAt(files, a) != IdentityAt(files, b))
  }

  ghost function SurvivingAt(files: seq<ReportFile>): set<string>
    requires MutationsSound(files)
  {
    set at | at in PlacesOf(files, "LIVED") :: IdentityAt(files, at)
  }

  /** The survivors are the reviewed mutants, all of them and no others. */
  ghost predicate SurvivorsMatch(files: seq<ReportFile>, review: Option<Review>)
    requires MutationsSound(files)
  {
    match review
    case None => SurvivingAt(files) == {}
    case Some(r) =>
      SurvivingAt(files) ==
        set c | c in r.mutations && c.line > 0 && c.column > 0 :: MutationIdentity(CandidateCoordinate(c))
  }

  /** The mutant met at a place has the identity of that place. */
  lemma MutantsAtPlaces(files: seq<ReportFile>)
    ensures |Places(files)| == |Mutants(files)|
    ensures forall x | 0 <= x < |Places(files)| ::
      var at := Places(files)[x];
      && at in PlacesIn(files) && Mutants(files)[x].mutation == MutationAt(files, at)
      && (Located(Mutants(files)[x]) ==> IdentityOf(Mutants(files)[x]) == IdentityAt(files, at))
  {
    hide MutationIdentity;
    PlacesOfMutants(files);
    forall x | 0 <= x < |Places(files)| ensures Places(files)[x] in PlacesIn(files) {
      assert Places(files)[x] in Places(files);
    }
  }

  lemma PlaceOf(files: seq<ReportFile>, at: (nat, nat)) returns (x: nat)
    requires at in PlacesIn(files)
    ensures x < |Places(files)| && Places(files)[x] == at
  {
    PlacesOfMutants(files);
    x :| x < |Places(files)| && Places(files)[x] == at;
  }

  lemma SoundMutants(files: seq<ReportFile>)
    requires MutantsSound(Mutants(files))
    ensures MutationsSound(files)
  {
    hide IdentityOf, MutationIdentity, IdentityAt, Mutants, Places;
    MutantsAtPlaces(files);
    var mutants := Mutants(files);
    forall at | at in PlacesIn(files)
      ensures var m := MutationAt(files, at);
        m.kind != "" && m.line > 0 && m.column > 0 && (m.status == "KILLED" || m.status == "LIVED")
    {
      var x := PlaceOf(files, at);
      assert Located(mutants[x]);
    }
    forall a, b | a in PlacesIn(files) && b in PlacesIn(files) && a != b
      ensures IdentityAt(files, a) != IdentityAt(files, b)
    {
      var x := PlaceOf(files, a);
      var y := PlaceOf(files, b);
      assert IdentityOf(mutants[x]) != IdentityOf(mutants[y]);
    }
  }

  lemma SoundMutations(files: seq<ReportFile>)
    requires MutationsSound(files)
    ensures MutantsSound(Mutants(files))
  {
    hide IdentityOf, MutationIdentity, IdentityAt, Mutants, Places, NoDuplicates;
    MutantsAtPlaces(files);
    var mutants, places := Mutants(files), Places(files);
    forall x | 0 <= x < |mutants|
      ensures Located(mutants[x]) && (mutants[x].mutation.status == "KILLED" || mutants[x].mutation.status == "LIVED")
    {
      assert places[x] in PlacesIn(files);
    }
    forall x, y | 0 <= x < y < |mutants| ensures IdentityOf(mutants[x]) != IdentityOf(mutants[y]) {
      DifferentPlaces(files, x, y);
    }
  }

  lemma DifferentPlaces(files: seq<ReportFile>, x: nat, y: nat)
    requires x < y < |Places(files)|
    ensures Places(files)[x] != Places(files)[y]
  {
    PlacesOfMutants(files);
  }

  lemma LivedAtPlaces(files: seq<ReportFile>)
    requires MutationsSound(files)
    ensures LivedIdentities(Mutants(files)) == SurvivingAt(files)
  {
    hide IdentityOf, MutationIdentity, IdentityAt, Mutants, Places, MutantsSound;
    SoundMutations(files);
    MutantsAreLocated(files);
    MutantsAtPlaces(files);
    var mutants := Mutants(files);
    forall identity | identity in LivedIdentities(mutants) ensures identity in SurvivingAt(files) {
      var m :| m in mutants && m.mutation.status == "LIVED" && IdentityOf(m) == identity;
      var x :| 0 <= x < |mutants| && mutants[x] == m;
      assert Places(files)[x] in PlacesOf(files, "LIVED");
    }
    forall identity | identity in SurvivingAt(files) ensures identity in LivedIdentities(mutants) {
      var at :| at in PlacesOf(files, "LIVED") && IdentityAt(files, at) == identity;
      var x := PlaceOf(files, at);
      assert mutants[x] in mutants;
    }
  }

  lemma MutantsAreLocated(files: seq<ReportFile>)
    requires MutantsSound(Mutants(files))
    ensures forall x | 0 <= x < |Mutants(files)| :: Located(Mutants(files)[x])
  {
  }

  /** What is accepted, in the report's own terms. */
  lemma AcceptedIsExact(report: Report, review: Option<Review>, syntax: Syntax)
    ensures Accepted(report, review, syntax) <==>
      && report.files.Some? && (review.Some? ==> ValidExecution(review.value, syntax))
      && var files := report.files.value;
      && (forall i | 0 <= i < |files| :: files[i].name != "")
      && (forall i, j | 0 <= i < j < |files| :: files[i].name != files[j].name)
      && MutationsSound(files) && SurvivorsMatch(files, review)
      && CountersSay(report.counters, |PlacesOf(files, "KILLED")|, |PlacesOf(files, "LIVED")|, |PlacesIn(files)|)
  {
    hide ValidExecution, MutantsSound, MutationsSound, CountersAgree, CountersSay, LivedIdentities, SurvivingAt;
    hide CountStatus, Mutants, PlacesOf, PlacesIn, MutationIdentity;
    if report.files.Some? {
      var files := report.files.value;
      if MutantsSound(Mutants(files)) {
        SoundMutants(files);
      }
      if MutationsSound(files) {
        SoundMutations(files);
        LivedAtPlaces(files);
      }
      CountsArePlaces(files, "KILLED");
      CountsArePlaces(files, "LIVED");
      CountersMeaning(report.counters, |PlacesOf(files, "KILLED")|, |PlacesOf(files, "LIVED")|, |PlacesIn(files)|);
    }
  }
}
