/** What a review selects: the form in which two reviews of one package are
    compared, and what that comparison decides. */
module Selections {
  import opened Wrappers
  import opened Text
  import opened Reviews
  import opened MutationReport
  import opened Evidence

  function Selection(mutations: seq<Candidate>): map<string, string> {
    if mutations == [] then map[]
    else
      var last := mutations[|mutations| - 1];
      Selection(mutations[..|mutations| - 1])[
        last.fileName + [NUL] + last.kind + [NUL] + Signed(last.line) + [NUL] + Signed(last.column) :=
        last.contractDomain + [NUL] + (if last.goarchs.None? then "" else Join(last.goarchs.value))]
  }

  function Signed(n: int): string {
    if n < 0 then "-" + Decimal(-n) else Decimal(n)
  }

  function Join(parts: seq<string>): string {
    if parts == [] then "" else if |parts| == 1 then parts[0] else parts[0] + [NUL] + Join(parts[1..])
  }

  /** Two reviews admit the same survivors for the same reasons of contract. */
  predicate SameSelection(left: Option<Review>, right: Option<Review>) {
    if left.None? || right.None? then left.None? && right.None?
    else
      && left.value.(mutations := []) == right.value.(mutations := [])
      && Selection(left.value.mutations) == Selection(right.value.mutations)
  }

  /** The map of a selection has the identities of the candidates as its keys. */
  lemma {:induction false} SelectionKeys(mutations: seq<Candidate>)
    requires forall c | c in mutations :: c.line > 0 && c.column > 0
    ensures Selection(mutations).Keys == set c | c in mutations :: MutationIdentity(CandidateCoordinate(c))
  {
    hide MutationIdentity;
    if mutations != [] {
      var front, last := mutations[..|mutations| - 1], mutations[|mutations| - 1];
      SelectionKeys(front);
      LastKey(mutations);
      assert mutations == front + [last];
    }
  }

  lemma LastKey(mutations: seq<Candidate>)
    requires mutations != [] && mutations[|mutations| - 1].line > 0 && mutations[|mutations| - 1].column > 0
    ensures var last := mutations[|mutations| - 1];
      Selection(mutations) ==
        Selection(mutations[..|mutations| - 1])[MutationIdentity(CandidateCoordinate(last)) := Scope(last)]
  {
  }

  /** What the selection records of a candidate besides its identity. */
  function Scope(c: Candidate): string {
    c.contractDomain + [NUL] + if c.goarchs.None? then "" else Join(c.goarchs.value)
  }

  /** With distinct coordinates nothing in the map is overwritten. */
  lemma {:induction false} SelectionScopes(mutations: seq<Candidate>, syntax: Syntax)
    requires forall i | 0 <= i < |mutations| :: WellFormed(mutations[i], syntax)
    requires DistinctCoordinates(mutations)
    ensures forall c | c in mutations ::
      MutationIdentity(CandidateCoordinate(c)) in Selection(mutations)
      && Selection(mutations)[MutationIdentity(CandidateCoordinate(c))] == Scope(c)
  {
    hide MutationIdentity, WellFormed, Scope;
    if mutations != [] {
      var front, last := mutations[..|mutations| - 1], mutations[|mutations| - 1];
      SelectionScopes(front, syntax);
      LastKey(mutations);
      WellFormedCoordinate(last, syntax);
      forall c | c in front
        ensures MutationIdentity(CandidateCoordinate(c)) != MutationIdentity(CandidateCoordinate(last))
      {
        var i :| 0 <= i < |front| && front[i] == c;
        assert mutations[i] == c;
        if MutationIdentity(CandidateCoordinate(c)) == MutationIdentity(CandidateCoordinate(last)) {
          IdentityDecides(CandidateCoordinate(c), CandidateCoordinate(last));
        }
      }
      assert mutations == front + [last];
    }
  }

  /** Equal scopes of well-formed candidates are scoped alike. */
  lemma ScopeDecides(a: Candidate, b: Candidate, syntax: Syntax)
    requires WellFormed(a, syntax) && WellFormed(b, syntax) && Scope(a) == Scope(b)
    ensures a.goarchs.Some? <==> b.goarchs.Some?
  {
    var x := if a.goarchs.None? then "" else Join(a.goarchs.value);
    var y := if b.goarchs.None? then "" else Join(b.goarchs.value);
    FirstField(a.contractDomain, x, b.contractDomain, y);
    if a.goarchs.Some? {
      ArchitecturesShow(a.goarchs.value);
    }
    if b.goarchs.Some? {
      ArchitecturesShow(b.goarchs.value);
    }
  }

  lemma ArchitecturesShow(goarchs: seq<string>)
    requires CanonicalScope(goarchs)
    ensures Join(goarchs) != ""
  {
    assert goarchs[0] in ARCHITECTURES;
  }

  lemma SelectionsScopeAlike(left: Review, right: Review, syntax: Syntax)
    requires ValidReview(left, syntax) && ValidReview(right, syntax)
    requires Selection(left.mutations) == Selection(right.mutations)
    ensures Scoped(left.mutations) ==> Scoped(right.mutations)
  {
    hide ValidReview, Selection;
    if Scoped(left.mutations) {
      var i :| 0 <= i < |left.mutations| && left.mutations[i].goarchs.Some?;
      SelectedAlike(left, right, syntax, left.mutations[i]);
      var b :| b in right.mutations && b.(reason := "") == left.mutations[i].(reason := "");
      var j :| 0 <= j < |right.mutations| && right.mutations[j] == b;
      assert right.mutations[j].goarchs.Some?;
    }
  }

  lemma DistinctReview(review: Review, syntax: Syntax)
    requires ValidReview(review, syntax)
    ensures DistinctCoordinates(review.mutations)
    ensures ReviewedIdentities(Some(review)) == set c | c in review.mutations ::
      MutationIdentity(CandidateCoordinate(c))
  {
    hide MutationIdentity, ValidHeader;
    forall c | c in review.mutations ensures c.line > 0 && c.column > 0 {
      var i :| 0 <= i < |review.mutations| && review.mutations[i] == c;
      WellFormedCoordinate(c, syntax);
    }
  }

  /** What the selection decides: two executable reviews that admit the same
      survivors for the same reasons of contract accept the same reports, and the
      same evidence may be reused under them. */
  lemma SameSelectionSameDecision(left: Option<Review>, right: Option<Review>, rules: Rules)
    requires SameSelection(left, right)
    requires left.Some? ==> ValidExecution(left.value, rules.syntax)
    requires right.Some? ==> ValidExecution(right.value, rules.syntax)
    ensures forall report :: Accepted(report, left, rules.syntax) <==> Accepted(report, right, rules.syntax)
    ensures forall records, reports, request ::
      Decide(records, reports, request, left, rules) == Decide(records, reports, request, right, rules)
  {
    hide SameSelection, Accepted, Decide, ValidExecution;
    SameSelectionSameMeaning(left, right, rules.syntax);
    forall records, reports, request
      ensures Decide(records, reports, request, left, rules) == Decide(records, reports, request, right, rules)
    {
      SameMeaningSameDecision(left, right, records, reports, request, rules);
    }
  }

  lemma SameMeaningSameDecision(left: Option<Review>, right: Option<Review>, records: Records, reports: Reports,
                                request: Request, rules: Rules)
    requires left.Some? ==> ValidExecution(left.value, rules.syntax)
    requires right.Some? ==> ValidExecution(right.value, rules.syntax)
    requires forall report :: Accepted(report, left, rules.syntax) <==> Accepted(report, right, rules.syntax)
    requires forall record :: SameArchitecture(record, left) <==> SameArchitecture(record, right)
    ensures Decide(records, reports, request, left, rules) == Decide(records, reports, request, right, rules)
  {
    hide ValidExecution, SameArchitecture, ValidRecord, Requested, Canonical, Mutants, CountStatus, AcceptedMutants;
    hide NamesDistinct;
  }

  lemma SameSelectionSameMeaning(left: Option<Review>, right: Option<Review>, syntax: Syntax)
    requires SameSelection(left, right)
    requires left.Some? ==> ValidExecution(left.value, syntax)
    requires right.Some? ==> ValidExecution(right.value, syntax)
    ensures forall report :: Accepted(report, left, syntax) <==> Accepted(report, right, syntax)
    ensures forall record :: SameArchitecture(record, left) <==> SameArchitecture(record, right)
  {
    if left.Some? {
      hide MutationIdentity, ValidReview, Selection, Accepted;
      DistinctReview(left.value, syntax);
      DistinctReview(right.value, syntax);
      SelectionKeys(left.value.mutations);
      SelectionKeys(right.value.mutations);
      SelectionsScopeAlike(left.value, right.value, syntax);
      SelectionsScopeAlike(right.value, left.value, syntax);
      forall report ensures Accepted(report, left, syntax) <==> Accepted(report, right, syntax) {
        SameSurvivors(report, left.value, right.value, syntax);
      }
      ScopedAlike(left.value, right.value);
    } else {
      assert left == right;
    }
  }

  lemma ScopedAlike(left: Review, right: Review)
    requires left.architecture == right.architecture && (Scoped(left.mutations) <==> Scoped(right.mutations))
    ensures forall record :: SameArchitecture(record, Some(left)) <==> SameArchitecture(record, Some(right))
  {
    hide Lookup;
    forall record ensures SameArchitecture(record, Some(left)) <==> SameArchitecture(record, Some(right)) {
      ArchitectureOfScoped(record, left);
      ArchitectureOfScoped(record, right);
    }
  }

  lemma ArchitectureOfScoped(record: Record, review: Review)
    ensures SameArchitecture(record, Some(review)) <==>
      (Scoped(review.mutations) ==> Lookup(record.environment, "GOARCH") == review.architecture)
  {
  }

  lemma SameSurvivors(report: Report, left: Review, right: Review, syntax: Syntax)
    requires ReviewedIdentities(Some(left)) == ReviewedIdentities(Some(right))
    requires ValidExecution(left, syntax) && ValidExecution(right, syntax)
    ensures Accepted(report, Some(left), syntax) <==> Accepted(report, Some(right), syntax)
  {
    hide ReviewedIdentities, ValidExecution, MutantsSound, CountersAgree;
  }

  // ----- what is compared

  /** Lists of names without NUL are decided by what they are joined to. */
  lemma {:induction false} JoinDecides(a: seq<string>, b: seq<string>)
    requires a != [] && b != [] && Join(a) == Join(b)
    requires forall i | 0 <= i < |a| :: NUL !in a[i]
    requires forall i | 0 <= i < |b| :: NUL !in b[i]
    ensures a == b
    decreases |a|
  {
    if |a| > 1 && |b| > 1 {
      FirstField(a[0], Join(a[1..]), b[0], Join(b[1..]));
      JoinDecides(a[1..], b[1..]);
      assert a == [a[0]] + a[1..] && b == [b[0]] + b[1..];
    }
  }

  lemma ArchitecturesHaveNoNul(goarchs: seq<string>)
    requires CanonicalScope(goarchs)
    ensures forall i | 0 <= i < |goarchs| :: NUL !in goarchs[i]
  {
  }

  lemma ScopeIsExact(a: Candidate, b: Candidate, syntax: Syntax)
    requires WellFormed(a, syntax) && WellFormed(b, syntax) && Scope(a) == Scope(b)
    ensures a.contractDomain == b.contractDomain && a.goarchs == b.goarchs
  {
    ScopeDecides(a, b, syntax);
    var x := if a.goarchs.None? then "" else Join(a.goarchs.value);
    var y := if b.goarchs.None? then "" else Join(b.goarchs.value);
    FirstField(a.contractDomain, x, b.contractDomain, y);
    if a.goarchs.Some? {
      ArchitecturesHaveNoNul(a.goarchs.value);
      ArchitecturesHaveNoNul(b.goarchs.value);
      JoinDecides(a.goarchs.value, b.goarchs.value);
    }
  }

  /** The candidates of a review, whatever was given as the reason. */
  ghost function Unreasoned(review: Review): set<Candidate> {
    set c | c in review.mutations :: c.(reason := "")
  }

  lemma SelectedAlike(left: Review, right: Review, syntax: Syntax, a: Candidate)
    requires ValidReview(left, syntax) && ValidReview(right, syntax) && a in left.mutations
    requires Selection(left.mutations) == Selection(right.mutations)
    ensures a.(reason := "") in Unreasoned(right)
  {
    hide MutationIdentity, WellFormed, Scope, ValidHeader, Selection;
    DistinctReview(left, syntax);
    DistinctReview(right, syntax);
    SelectionScopes(left.mutations, syntax);
    SelectionScopes(right.mutations, syntax);
    SelectionKeys(right.mutations);
    var identity := MutationIdentity(CandidateCoordinate(a));
    assert identity in Selection(right.mutations).Keys;
    var b :| b in right.mutations && MutationIdentity(CandidateCoordinate(b)) == identity;
    var i :| 0 <= i < |left.mutations| && left.mutations[i] == a;
    var j :| 0 <= j < |right.mutations| && right.mutations[j] == b;
    WellFormedCoordinate(a, syntax);
    WellFormedCoordinate(b, syntax);
    IdentityDecides(CandidateCoordinate(a), CandidateCoordinate(b));
    ScopeIsExact(a, b, syntax);
    assert a.(reason := "") == b.(reason := "");
  }

  lemma SelectedWithin(left: Review, right: Review, syntax: Syntax)
    requires ValidReview(left, syntax) && ValidReview(right, syntax)
    requires Unreasoned(left) <= Unreasoned(right)
    ensures forall identity | identity in Selection(left.mutations) ::
      && identity in Selection(right.mutations)
      && Selection(left.mutations)[identity] == Selection(right.mutations)[identity]
  {
    hide MutationIdentity, WellFormed, ValidHeader, Selection;
    DistinctReview(left, syntax);
    DistinctReview(right, syntax);
    SelectionScopes(left.mutations, syntax);
    SelectionScopes(right.mutations, syntax);
    SelectionKeys(left.mutations);
    forall identity | identity in Selection(left.mutations)
      ensures identity in Selection(right.mutations)
      ensures Selection(left.mutations)[identity] == Selection(right.mutations)[identity]
    {
      assert identity in Selection(left.mutations).Keys;
      var a :| a in left.mutations && MutationIdentity(CandidateCoordinate(a)) == identity;
      assert a.(reason := "") in Unreasoned(left);
      var b :| b in right.mutations && b.(reason := "") == a.(reason := "");
      assert Scope(a) == Scope(b);
    }
  }

  /** Two valid reviews select the same exactly if they are alike in everything
      but the order of their candidates and the reasons given for them. */
  lemma SelectionIsExact(left: Review, right: Review, syntax: Syntax)
    requires ValidReview(left, syntax) && ValidReview(right, syntax)
    ensures SameSelection(Some(left), Some(right)) <==>
      && left.architecture == right.architecture && left.moduleDirectory == right.moduleDirectory
      && left.packageDirectory == right.packageDirectory && left.sourceDigest == right.sourceDigest
      && left.gremlinsVersion == right.gremlinsVersion && left.verifier == right.verifier
      && Unreasoned(left) == Unreasoned(right)
  {
    hide ValidReview, Selection;
    if Selection(left.mutations) == Selection(right.mutations) {
      forall c | c in left.mutations ensures c.(reason := "") in Unreasoned(right) {
        SelectedAlike(left, right, syntax, c);
      }
      forall c | c in right.mutations ensures c.(reason := "") in Unreasoned(left) {
        SelectedAlike(right, left, syntax, c);
      }
    }
    if Unreasoned(left) == Unreasoned(right) {
      SelectedWithin(left, right, syntax);
      SelectedWithin(right, left, syntax);
      assert Selection(left.mutations) == Selection(right.mutations);
    }
  }
}
