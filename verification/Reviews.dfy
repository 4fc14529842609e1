/** Reviewed equivalent mutants: which survivors of a package are admitted, and
    the identity string by which a report's mutants are matched against them. */
module Reviews {
  import opened Wrappers
  import opened Text

  /** Syntactic checks on single strings, left uninterpreted. */
  datatype Syntax = Syntax(
    clean: string -> bool, digest: string -> bool, version: string -> bool, trimmedLength: string -> nat)

  datatype Candidate = Candidate(
    fileName: string, kind: string, line: int, column: int,
    contractDomain: string, reason: string, goarchs: Option<seq<string>>)

  datatype Review = Review(
    architecture: string, moduleDirectory: string, packageDirectory: string,
    sourceDigest: string, gremlinsVersion: string, verifier: string, mutations: seq<Candidate>)

  /** Where a mutant is and what it does. */
  datatype Coordinate = Coordinate(fileName: string, kind: string, line: nat, column: nat)

  const NUL: char := '\0'

  const ARCHITECTURES: set<string> := {
    "386", "amd64", "arm", "arm64", "loong64", "mips", "mips64", "mips64le", "mipsle", "ppc64", "ppc64le",
    "riscv64", "s390x", "wasm"
  }

  predicate ValidRelative(value: string, syntax: Syntax) {
    value == "." || (
      value != "" && value != ".." && '\\' !in value && NUL !in value && syntax.clean(value) &&
      !("/" <= value) && !("../" <= value))
  }

  predicate SingleLine(value: string) {
    NUL !in value && '\r' !in value && '\n' !in value
  }

  predicate HasSuffix(value: string, suffix: string) {
    |suffix| <= |value| && value[|value| - |suffix|..] == suffix
  }

  predicate CanonicalScope(goarchs: seq<string>) {
    && goarchs != []
    && (forall i | 0 <= i < |goarchs| :: goarchs[i] in ARCHITECTURES)
    && (forall i | 0 < i < |goarchs| :: !LexLe(goarchs[i], goarchs[i - 1]))
  }

  predicate WellFormed(candidate: Candidate, syntax: Syntax) {
    && (candidate.goarchs.Some? ==> CanonicalScope(candidate.goarchs.value))
    && ValidRelative(candidate.fileName, syntax) && HasSuffix(candidate.fileName, ".go")
    && candidate.kind != "" && SingleLine(candidate.kind) && candidate.line > 0 && candidate.column > 0
    && syntax.trimmedLength(candidate.contractDomain) >= 20 && SingleLine(candidate.contractDomain)
    && syntax.trimmedLength(candidate.reason) >= 40 && SingleLine(candidate.reason)
  }

  function MutationIdentity(at: Coordinate): string {
    at.fileName + [NUL] + at.kind + [NUL] + Decimal(at.line) + [NUL] + Decimal(at.column)
  }

  function CandidateCoordinate(candidate: Candidate): Coordinate
    requires candidate.line > 0 && candidate.column > 0
  {
    Coordinate(candidate.fileName, candidate.kind, candidate.line, candidate.column)
  }

  predicate ValidHeader(review: Review, syntax: Syntax) {
    && ValidRelative(review.moduleDirectory, syntax) && ValidRelative(review.packageDirectory, syntax)
    && syntax.digest(review.sourceDigest) && syntax.digest(review.verifier) && syntax.version(review.gremlinsVersion)
    && review.mutations != []
  }

  /** No coordinate is reviewed twice. */
  ghost predicate ValidReview(review: Review, syntax: Syntax) {
    && ValidHeader(review, syntax)
    && (forall i | 0 <= i < |review.mutations| :: WellFormed(review.mutations[i], syntax))
    && (forall i, j | 0 <= i < j < |review.mutations| ::
          CandidateCoordinate(review.mutations[i]) != CandidateCoordinate(review.mutations[j]))
  }

  predicate Admitted(candidate: Candidate, architecture: string) {
    candidate.goarchs.None? || (architecture in ARCHITECTURES && architecture in candidate.goarchs.value)
  }

  ghost predicate ValidExecution(review: Review, syntax: Syntax) {
    && ValidReview(review, syntax)
    && forall i | 0 <= i < |review.mutations| :: Admitted(review.mutations[i], review.architecture)
  }

  // ----- the identity string

  function CountNul(s: string): nat {
    if s == "" then 0 else CountNul(s[..|s| - 1]) + if s[|s| - 1] == NUL then 1 else 0
  }

  lemma {:induction false} CountNulAdds(a: string, b: string)
    ensures CountNul(a + b) == CountNul(a) + CountNul(b)
  {
    if b == "" {
      assert a + b == a;
    } else {
      CountNulAdds(a, b[..|b| - 1]);
      assert (a + b)[..|a + b| - 1] == a + b[..|b| - 1];
    }
  }

  lemma {:induction false} CountNulZero(s: string)
    ensures CountNul(s) == 0 <==> NUL !in s
  {
    if s == "" {
    } else {
      CountNulZero(s[..|s| - 1]);
      assert s == s[..|s| - 1] + [s[|s| - 1]];
    }
  }

  lemma DecimalHasNoNul(n: nat)
    ensures NUL !in Decimal(n)
  {
    DecimalDenotes(n);
  }

  lemma IdentityCount(at: Coordinate)
    ensures CountNul(MutationIdentity(at)) == CountNul(at.fileName) + CountNul(at.kind) + 3
  {
    var line, column := Decimal(at.line), Decimal(at.column);
    DecimalHasNoNul(at.line);
    DecimalHasNoNul(at.column);
    CountNulZero(line);
    CountNulZero(column);
    CountNulAdds(at.fileName, [NUL]);
    CountNulAdds(at.fileName + [NUL], at.kind);
    CountNulAdds(at.fileName + [NUL] + at.kind, [NUL]);
    CountNulAdds(at.fileName + [NUL] + at.kind + [NUL], line);
    CountNulAdds(at.fileName + [NUL] + at.kind + [NUL] + line, [NUL]);
    CountNulAdds(at.fileName + [NUL] + at.kind + [NUL] + line + [NUL], column);
    assert CountNul([NUL]) == 1 by {
      assert [NUL][..0] == "";
    }
  }

  /** Before its first NUL a string is determined. */
  lemma FirstField(a: string, x: string, b: string, y: string)
    requires a + [NUL] + x == b + [NUL] + y
    requires NUL !in a && NUL !in b
    ensures a == b && x == y
  {
    var s := a + [NUL] + x;
    assert s[|a|] == NUL && s[|b|] == NUL;
    assert forall i | 0 <= i < |a| :: s[i] == a[i] && a[i] in a;
    assert forall i | 0 <= i < |b| :: s[i] == b[i] && b[i] in b;
    assert a == s[..|a|] && b == s[..|b|];
    assert x == s[|a| + 1..] && y == s[|b| + 1..];
  }

  lemma NoNulUnless(at: Coordinate, reviewed: Coordinate)
    requires MutationIdentity(at) == MutationIdentity(reviewed)
    requires NUL !in reviewed.fileName && NUL !in reviewed.kind
    ensures NUL !in at.fileName && NUL !in at.kind
  {
    IdentityCount(at);
    IdentityCount(reviewed);
    hide MutationIdentity;
    CountNulZero(at.fileName);
    CountNulZero(at.kind);
    CountNulZero(reviewed.fileName);
    CountNulZero(reviewed.kind);
  }

  lemma IdentityFields(at: Coordinate)
    ensures MutationIdentity(at) ==
              at.fileName + [NUL] + (at.kind + [NUL] + (Decimal(at.line) + [NUL] + Decimal(at.column)))
  {
    var line, column := Decimal(at.line), Decimal(at.column);
    assert at.fileName + [NUL] + at.kind + [NUL] + line + [NUL] + column
        == at.fileName + [NUL] + (at.kind + [NUL] + (line + [NUL] + column));
  }

  /** A match with an identity whose names hold no NUL is a match of coordinates,
      whatever the other names hold. */
  lemma IdentityDecides(any: Coordinate, reviewed: Coordinate)
    requires MutationIdentity(any) == MutationIdentity(reviewed)
    requires NUL !in reviewed.fileName && NUL !in reviewed.kind
    ensures any == reviewed
  {
    NoNulUnless(any, reviewed);
    IdentityFields(any);
    IdentityFields(reviewed);
    hide MutationIdentity, Decimal;
    var anyTail, tail :=
      Decimal(any.line) + [NUL] + Decimal(any.column), Decimal(reviewed.line) + [NUL] + Decimal(reviewed.column);
    FirstField(any.fileName, any.kind + [NUL] + anyTail, reviewed.fileName, reviewed.kind + [NUL] + tail);
    FirstField(any.kind, anyTail, reviewed.kind, tail);
    DecimalHasNoNul(any.line);
    DecimalHasNoNul(reviewed.line);
    FirstField(Decimal(any.line), Decimal(any.column), Decimal(reviewed.line), Decimal(reviewed.column));
    DecimalInjective(any.line, reviewed.line);
    DecimalInjective(any.column, reviewed.column);
  }

  /** After its last NUL a string is determined. */
  lemma LastField(a: string, x: string, b: string, y: string)
    requires a + [NUL] + x == b + [NUL] + y
    requires NUL !in x && NUL !in y
    ensures a == b && x == y
  {
    var s := a + [NUL] + x;
    assert s[|a|] == NUL && (b + [NUL] + y)[|b|] == NUL;
    NoNulAfter(a, x);
    NoNulAfter(b, y);
    assert a == s[..|a|] && b == (b + [NUL] + y)[..|b|];
    assert x == s[|a| + 1..] && y == (b + [NUL] + y)[|b| + 1..];
  }

  lemma NoNulAfter(a: string, x: string)
    requires NUL !in x
    ensures forall i | |a| < i < |a + [NUL] + x| :: (a + [NUL] + x)[i] != NUL
  {
    forall i | |a| < i < |a + [NUL] + x| ensures (a + [NUL] + x)[i] != NUL {
      assert (a + [NUL] + x)[i] == x[i - |a| - 1] && x[i - |a| - 1] in x;
    }
  }

  /** File name and kind as the identity string runs them together. */
  function Joined(at: Coordinate): string {
    at.fileName + [NUL] + at.kind
  }

  /** Exactly which coordinates share an identity: those at one position whose
      file names and kinds run together to the same string. */
  lemma CollisionIsExact(a: Coordinate, b: Coordinate)
    ensures MutationIdentity(a) == MutationIdentity(b) <==>
      a.line == b.line && a.column == b.column && Joined(a) == Joined(b)
  {
    if MutationIdentity(a) == MutationIdentity(b) {
      DecimalHasNoNul(a.line);
      DecimalHasNoNul(b.line);
      DecimalHasNoNul(a.column);
      DecimalHasNoNul(b.column);
      LastField(Joined(a) + [NUL] + Decimal(a.line), Decimal(a.column), Joined(b) + [NUL] + Decimal(b.line),
                Decimal(b.column));
      LastField(Joined(a), Decimal(a.line), Joined(b), Decimal(b.line));
      DecimalInjective(a.line, b.line);
      DecimalInjective(a.column, b.column);
    }
  }

  /** An identity decides its coordinate if and only if the names hold no NUL. */
  lemma IdentityDecidesExactly(reviewed: Coordinate)
    ensures (forall any :: MutationIdentity(any) == MutationIdentity(reviewed) ==> any == reviewed)
      <==> NUL !in reviewed.fileName && NUL !in reviewed.kind
  {
    if NUL !in reviewed.fileName && NUL !in reviewed.kind {
      forall any | MutationIdentity(any) == MutationIdentity(reviewed) ensures any == reviewed {
        IdentityDecides(any, reviewed);
      }
    } else {
      var other := Shifted(reviewed);
      CollisionIsExact(other, reviewed);
      assert MutationIdentity(other) == MutationIdentity(reviewed) && other != reviewed;
    }
  }

  /** Another coordinate with the same identity: the names are parted at another NUL. */
  lemma Shifted(at: Coordinate) returns (other: Coordinate)
    requires NUL in at.fileName || NUL in at.kind
    ensures other != at && other.line == at.line && other.column == at.column && Joined(other) == Joined(at)
  {
    if NUL in at.fileName {
      var i :| 0 <= i < |at.fileName| && at.fileName[i] == NUL;
      other := at.(fileName := at.fileName[..i], kind := at.fileName[i + 1..] + [NUL] + at.kind);
      assert at.fileName == at.fileName[..i] + [NUL] + at.fileName[i + 1..];
      assert |other.fileName| < |at.fileName|;
    } else {
      var i :| 0 <= i < |at.kind| && at.kind[i] == NUL;
      other := at.(fileName := at.fileName + [NUL] + at.kind[..i], kind := at.kind[i + 1..]);
      assert at.kind == at.kind[..i] + [NUL] + at.kind[i + 1..];
      assert |other.kind| < |at.kind|;
    }
  }

  /** Two coordinates that share an identity. */
  lemma IdentitiesCollide()
    ensures exists a, b :: a != b && MutationIdentity(a) == MutationIdentity(b)
  {
    var a, b := Coordinate(['a', NUL, 'b'], "c", 1, 1), Coordinate("a", ['b', NUL, 'c'], 1, 1);
    assert MutationIdentity(a) == MutationIdentity(b);
    assert a != b by {
      assert |a.fileName| != |b.fileName|;
    }
  }

  // ----- validation and selection

  lemma WellFormedCoordinate(candidate: Candidate, syntax: Syntax)
    requires WellFormed(candidate, syntax)
    ensures candidate.line > 0 && candidate.column > 0
    ensures NUL !in candidate.fileName && NUL !in candidate.kind
  {
  }

  /** Accepts exactly the reviews whose coordinates are well formed and distinct. */
  method Validate(review: Review, syntax: Syntax) returns (valid: bool)
    ensures valid <==> ValidReview(review, syntax)
  {
    hide MutationIdentity, ValidRelative, SingleLine, HasSuffix, CanonicalScope, ValidHeader;
    if !ValidHeader(review, syntax) {
      return false;
    }
    var seen: set<string> := {};
    for i := 0 to |review.mutations|
      invariant forall k | 0 <= k < i :: WellFormed(review.mutations[k], syntax)
      invariant forall j, k | 0 <= j < k < i ::
        CandidateCoordinate(review.mutations[j]) != CandidateCoordinate(review.mutations[k])
      invariant seen == set k | 0 <= k < i :: MutationIdentity(CandidateCoordinate(review.mutations[k]))
    {
      var candidate := review.mutations[i];
      if !WellFormed(candidate, syntax) {
        return false;
      }
      WellFormedCoordinate(candidate, syntax);
      var identity := MutationIdentity(CandidateCoordinate(candidate));
      forall k | 0 <= k < i && MutationIdentity(CandidateCoordinate(review.mutations[k])) == identity
        ensures CandidateCoordinate(review.mutations[k]) == CandidateCoordinate(candidate)
      {
        IdentityDecides(CandidateCoordinate(review.mutations[k]), CandidateCoordinate(candidate));
      }
      if identity in seen {
        return false;
      }
      seen := seen + {identity};
    }
    valid := true;
  }

  method ValidateExecution(review: Review, syntax: Syntax) returns (valid: bool)
    ensures valid <==> ValidExecution(review, syntax)
  {
    valid := Validate(review, syntax);
    if !valid {
      return;
    }
    for i := 0 to |review.mutations|
      invariant forall k | 0 <= k < i :: Admitted(review.mutations[k], review.architecture)
    {
      if !Admitted(review.mutations[i], review.architecture) {
        return false;
      }
    }
  }

  datatype Refusal = InvalidReview | IdentityChanged | UnknownArchitecture

  /** The candidates that apply on an architecture, in order. */
  function Selected(candidates: seq<Candidate>, architecture: string): seq<Candidate> {
    if candidates == [] then []
    else
      var last := candidates[|candidates| - 1];
      Selected(candidates[..|candidates| - 1], architecture) +
      if last.goarchs.None? || architecture in last.goarchs.value then [last] else []
  }

  ghost predicate Scoped(candidates: seq<Candidate>) {
    exists i | 0 <= i < |candidates| :: candidates[i].goarchs.Some?
  }

  /** Package `at` is the first one listed for a module and package. */
  ghost predicate FirstFor(packages: seq<Review>, at: nat, moduleDirectory: string, packageDirectory: string) {
    && at < |packages|
    && packages[at].moduleDirectory == moduleDirectory && packages[at].packageDirectory == packageDirectory
    && forall k | 0 <= k < at ::
         packages[k].moduleDirectory != moduleDirectory || packages[k].packageDirectory != packageDirectory
  }

  /** The review that applies to a package now: none if the package is not
      listed or nothing in its entry applies, refused if its entry is stale. */
  ghost function Applicable(listed: Review, source: string, version: string, verifier: string,
                            architecture: string, syntax: Syntax): Result<Option<Review>, Refusal> {
    if !ValidReview(listed, syntax) then Err(InvalidReview)
    else if listed.sourceDigest != source || listed.gremlinsVersion != version || listed.verifier != verifier then
      Err(IdentityChanged)
    else if Scoped(listed.mutations) && architecture !in ARCHITECTURES then Err(UnknownArchitecture)
    else
      var selected := Selected(listed.mutations, architecture);
      if selected == [] then Ok(None) else Ok(Some(listed.(architecture := architecture, mutations := selected)))
  }

  method SelectReview(packages: seq<Review>, moduleDirectory: string, packageDirectory: string, source: string,
                      version: string, verifier: string, architecture: string, syntax: Syntax)
    returns (r: Result<Option<Review>, Refusal>)
    ensures (forall k: nat :: !FirstFor(packages, k, moduleDirectory, packageDirectory)) ==> r == Ok(None)
    ensures forall k: nat | FirstFor(packages, k, moduleDirectory, packageDirectory) ::
      r == Applicable(packages[k], source, version, verifier, architecture, syntax)
  {
    hide Applicable;
    for i := 0 to |packages|
      invariant forall k | 0 <= k < i ::
        packages[k].moduleDirectory != moduleDirectory || packages[k].packageDirectory != packageDirectory
    {
      if packages[i].moduleDirectory == moduleDirectory && packages[i].packageDirectory == packageDirectory {
        assert FirstFor(packages, i, moduleDirectory, packageDirectory);
        r := Apply(packages[i], source, version, verifier, architecture, syntax);
        return;
      }
    }
    r := Ok(None);
  }

  method Apply(listed: Review, source: string, version: string, verifier: string, architecture: string, syntax: Syntax)
    returns (r: Result<Option<Review>, Refusal>)
    ensures r == Applicable(listed, source, version, verifier, architecture, syntax)
  {
    hide ValidReview;
    var valid := Validate(listed, syntax);
    if !valid {
      return Err(InvalidReview);
    }
    if listed.sourceDigest != source || listed.gremlinsVersion != version || listed.verifier != verifier {
      return Err(IdentityChanged);
    }
    var selected := [];
    for i := 0 to |listed.mutations|
      invariant selected == Selected(listed.mutations[..i], architecture)
      invariant architecture !in ARCHITECTURES ==> forall k | 0 <= k < i :: listed.mutations[k].goarchs.None?
    {
      var candidate := listed.mutations[i];
      assert listed.mutations[..i + 1][..i] == listed.mutations[..i];
      if candidate.goarchs.Some? {
        if architecture !in ARCHITECTURES {
          return Err(UnknownArchitecture);
        }
        if architecture !in candidate.goarchs.value {
          continue;
        }
      }
      selected := selected + [candidate];
    }
    assert listed.mutations[..|listed.mutations|] == listed.mutations;
    r := if selected == [] then Ok(None) else Ok(Some(listed.(architecture := architecture, mutations := selected)));
  }

  /** Selection keeps exactly the candidates that apply. */
  lemma {:induction false} SelectedIsExact(candidates: seq<Candidate>, architecture: string)
    requires architecture in ARCHITECTURES || !Scoped(candidates)
    ensures forall c :: c in Selected(candidates, architecture) <==> c in candidates && Admitted(c, architecture)
  {
    if candidates == [] {
    } else {
      var front, last := candidates[..|candidates| - 1], candidates[|candidates| - 1];
      assert forall i | 0 <= i < |front| :: front[i] == candidates[i];
      SelectedIsExact(front, architecture);
      assert candidates == front + [last];
    }
  }

  ghost predicate DistinctCoordinates(candidates: seq<Candidate>) {
    && (forall c | c in candidates :: c.line > 0 && c.column > 0)
    && (forall i, j | 0 <= i < j < |candidates| ::
         CandidateCoordinate(candidates[i]) != CandidateCoordinate(candidates[j]))
  }

  lemma {:induction false} SelectedStaysDistinct(candidates: seq<Candidate>, architecture: string)
    requires DistinctCoordinates(candidates)
    ensures DistinctCoordinates(Selected(candidates, architecture))
    ensures forall c | c in Selected(candidates, architecture) :: c in candidates
  {
    if candidates == [] {
    } else {
      var front, last := candidates[..|candidates| - 1], candidates[|candidates| - 1];
      SelectedStaysDistinct(front, architecture);
      assert candidates == front + [last];
      var s := Selected(front, architecture);
      forall i | 0 <= i < |s| ensures CandidateCoordinate(s[i]) != CandidateCoordinate(last) {
        assert s[i] in front;
        var k :| 0 <= k < |front| && front[k] == s[i];
        assert candidates[k] == s[i];
      }
    }
  }

  /** A review that is handed out is admitted for execution. */
  lemma ApplicableIsExecutable(listed: Review, source: string, version: string, verifier: string, architecture: string,
                               syntax: Syntax)
    requires Applicable(listed, source, version, verifier, architecture, syntax).Ok?
    requires Applicable(listed, source, version, verifier, architecture, syntax).value.Some?
    ensures var review := Applicable(listed, source, version, verifier, architecture, syntax).value.value;
      && ValidExecution(review, syntax) && review.architecture == architecture
      && forall c :: c in review.mutations <==> c in listed.mutations && Admitted(c, architecture)
  {
    hide ValidRelative, SingleLine, HasSuffix, CanonicalScope;
    assert forall i | 0 <= i < |listed.mutations| :: WellFormed(listed.mutations[i], syntax);
    SelectedIsExact(listed.mutations, architecture);
    SelectedStaysDistinct(listed.mutations, architecture);
    var s := Selected(listed.mutations, architecture);
    assert forall i | 0 <= i < |s| :: s[i] in s && s[i] in listed.mutations;
  }
}
