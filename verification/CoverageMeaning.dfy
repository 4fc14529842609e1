/** What a coverage check decides, said of the profile's text and lines alone. */
module CoverageMeaning {
  import opened Wrappers
  import opened Sorting
  import opened Text
  import opened CoverageBlocks
  import opened CoverageReport
  import opened Coverage

  /** The header names a mode, and to collect evidence one of three. */
  ghost predicate Headed(header: Option<string>, evidence: bool) {
    exists rest | header == Some("mode: " + rest) :: evidence ==> rest in {"atomic", "count", "set"}
  }

  /** The line counts statements of a block, in numbers that the tool can hold. */
  ghost predicate Fit(l: Line, evidence: bool, ids: Identities) {
    && l != Malformed && l.statements < 0x8000_0000_0000_0000 && l.executions < 0x1_0000_0000_0000_0000
    && (evidence ==> ids.located(l.identity))
  }

  /** Two lines give one block different numbers of statements. */
  ghost predicate Clash(a: Line, b: Line) {
    a != Malformed && b != Malformed && a.identity == b.identity && a.statements != b.statements
  }

  /** All lines are fit, and no two of them clash. */
  ghost predicate Sane(lines: seq<Line>, evidence: bool, ids: Identities) {
    (forall l | l in lines :: Fit(l, evidence, ids)) && forall a, b | a in lines && b in lines :: !Clash(a, b)
  }

  /** A line holds statements of the package. */
  ghost predicate Holds(l: Line, p: string, ids: Identities) {
    l != Malformed && ids.packageOf(l.identity) == p && l.statements != 0
  }

  /** Some line says that the block of this one has been executed. */
  ghost predicate Run(lines: seq<Line>, l: Line) {
    l != Malformed && exists m | m in lines :: m != Malformed && m.identity == l.identity && m.executions != 0
  }

  /** No line holds statements of the package. */
  ghost predicate Lacks(lines: seq<Line>, p: string, ids: Identities) {
    !exists l | l in lines :: Holds(l, p, ids)
  }

  /** Some statements of the package are executed on no line. */
  ghost predicate Skips(lines: seq<Line>, p: string, ids: Identities) {
    exists l | l in lines && Holds(l, p, ids) :: !Run(lines, l)
  }

  /** The package has statements, and none of them is executed. */
  ghost predicate Sleeps(lines: seq<Line>, p: string, ids: Identities) {
    !Lacks(lines, p, ids) && !exists l | l in lines && Holds(l, p, ids) :: Run(lines, l)
  }

  /** No package has more statements than the tool can count. */
  ghost predicate Countable(lines: seq<Line>, ids: Identities) {
    forall blocks, p | Describes(blocks, lines, ids) :: TotalsOf(blocks, p).total < 0x8000_0000_0000_0000
  }

  ghost predicate Covers(lines: seq<Line>, expected: seq<string>, evidence: bool, ids: Identities) {
    forall p | p in expected ::
      !Lacks(lines, p, ids) && if evidence then !Sleeps(lines, p, ids) else !Skips(lines, p, ids)
  }

  lemma HeadedIsAdmitted(header: Option<string>, evidence: bool)
    ensures Headed(header, evidence) <==> HeaderAdmitted(header, evidence)
  {
    if HeaderAdmitted(header, evidence) {
      var rest := header.value[|"mode: "|..];
      assert header.value == "mode: " + rest;
      if evidence {
        assert "mode: atomic"[6..] == "atomic" && "mode: count"[6..] == "count" && "mode: set"[6..] == "set";
      }
    }
    assert "mode: " + "atomic" == "mode: atomic";
    assert "mode: " + "count" == "mode: count";
    assert "mode: " + "set" == "mode: set";
  }

  lemma WellFormedIsFit(lines: seq<Line>, evidence: bool, ids: Identities)
    ensures WellFormed(lines, evidence, ids) <==> Sane(lines, evidence, ids)
  {
    assert forall l :: Readable(l, evidence, ids) <==> Fit(l, evidence, ids);
    if Consistent(lines) {
      forall a, b | a in lines && b in lines ensures !Clash(a, b) {
        var i :| 0 <= i < |lines| && lines[i] == a;
        var j :| 0 <= j < |lines| && lines[j] == b;
      }
    }
    if forall a, b | a in lines && b in lines :: !Clash(a, b) {
      forall i, j | 0 <= i < j < |lines| && lines[i].Counted? && lines[j].Counted?
        && lines[i].identity == lines[j].identity
        ensures lines[i].statements == lines[j].statements
      {
        assert lines[i] in lines && lines[j] in lines && !Clash(lines[i], lines[j]);
      }
    }
  }

  lemma CoversIsCovered(lines: seq<Line>, expected: seq<string>, ids: Identities)
    ensures ExactlyCovered(lines, expected, ids) <==> Covers(lines, expected, false, ids)
    ensures SomewhatCovered(lines, expected, ids) <==> Covers(lines, expected, true, ids)
  {
    assert forall l: Line | l.Counted? :: Executed(lines, l.identity) <==> Run(lines, l);
  }

  /** A check passes exactly if the profile is headed and whole, its lines are fit
      and do not clash, and they cover every expected package. */
  lemma PassesIsExact(profile: Profile, expected: seq<string>, mode: string, ids: Identities)
    ensures Passes(profile, expected, mode, ids) <==>
      && mode in {"exact", "evidence"} && expected != []
      && Headed(profile.header, mode == "evidence") && !profile.broken
      && Sane(profile.lines, mode == "evidence", ids)
      && Countable(profile.lines, ids) && Covers(profile.lines, expected, mode == "evidence", ids)
  {
    hide HeaderAdmitted, Headed, WellFormed, Sane, ExactlyCovered, SomewhatCovered, Covers, TotalsOf, Describes;
    hide Sufficient;
    HeadedIsAdmitted(profile.header, mode == "evidence");
    WellFormedIsFit(profile.lines, mode == "evidence", ids);
    CoversIsCovered(profile.lines, expected, ids);
    if mode in {"exact", "evidence"} && expected != [] && HeaderAdmitted(profile.header, mode == "evidence")
      && Accountable(profile.lines, mode == "evidence", ids) && !profile.broken
    {
      VerdictMeaning(profile, expected, mode, ids);
    }
  }

  // ----- the error

  ghost predicate ClashesBefore(lines: seq<Line>, k: nat)
    requires k < |lines|
  {
    exists j | 0 <= j < k :: Clash(lines[j], lines[k])
  }

  /** What each error says of the profile. */
  ghost predicate Means(error: Failure, profile: Profile, expected: seq<string>, mode: string, ids: Identities) {
    var evidence, lines := mode == "evidence", profile.lines;
    match error
    case UnknownMode => mode !in {"exact", "evidence"}
    case NoExpectedPackages => expected == []
    case MissingHeader => !Headed(profile.header, false)
    case UnsupportedHeader => evidence && Headed(profile.header, false) && !Headed(profile.header, true)
    case InvalidLine(n) =>
      2 <= n < |lines| + 2 && Sane(lines[..n - 2], evidence, ids) && !Fit(lines[n - 2], evidence, ids)
    case InconsistentLine(n) =>
      && 2 <= n < |lines| + 2 && Sane(lines[..n - 2], evidence, ids) && Fit(lines[n - 2], evidence, ids)
      && ClashesBefore(lines, n - 2)
    case BrokenProfile => profile.broken
    case Overflow(p) =>
      forall blocks | Describes(blocks, lines, ids) :: TotalsOf(blocks, p).total >= 0x8000_0000_0000_0000
    case NotExecuted(p) => evidence && p in expected && Sleeps(lines, p, ids)
    case MissingEvidence(p) => p in expected && Lacks(lines, p, ids)
    case BelowExact(p) => !evidence && p in expected && Skips(lines, p, ids)
  }

  /** A package of which this may be reported comes before all others like it. */
  ghost predicate First(error: Failure, profile: Profile, expected: seq<string>, mode: string, ids: Identities) {
    match error
    case NotExecuted(p) => forall q | Means(NotExecuted(q), profile, expected, mode, ids) :: LexLe(p, q)
    case MissingEvidence(p) => FirstShort(p, profile, expected, mode, ids)
    case BelowExact(p) => FirstShort(p, profile, expected, mode, ids)
    case _ => true
  }

  ghost predicate FirstShort(p: string, profile: Profile, expected: seq<string>, mode: string, ids: Identities) {
    && (forall q | Means(MissingEvidence(q), profile, expected, mode, ids) :: LexLe(p, q))
    && forall q | Means(BelowExact(q), profile, expected, mode, ids) :: LexLe(p, q)
  }

  /** The package's lines with statements are its blocks with statements. */
  lemma LinesAreBlocks(blocks: map<string, Block>, lines: seq<Line>, ids: Identities, p: string)
    requires Describes(blocks, lines, ids)
    ensures forall l | l in lines && Holds(l, p, ids) ::
      && l.identity in blocks && blocks[l.identity].packagePath == p && blocks[l.identity].statements > 0
      && (blocks[l.identity].covered <==> Run(lines, l))
    ensures forall id | id in blocks && blocks[id].packagePath == p && blocks[id].statements > 0 ::
      exists l | l in lines && Holds(l, p, ids) :: l.identity == id
  {
    forall l | l in lines && Holds(l, p, ids) ensures Executed(lines, l.identity) <==> Run(lines, l) {
    }
    forall id | id in blocks && blocks[id].packagePath == p && blocks[id].statements > 0
      ensures exists l | l in lines && Holds(l, p, ids) :: l.identity == id
    {
      var l :| l in lines && l.Counted? && l.identity == id;
      assert Holds(l, p, ids);
    }
  }

  lemma BlockMeaning(blocks: map<string, Block>, lines: seq<Line>, ids: Identities, p: string)
    requires Describes(blocks, lines, ids)
    ensures Missing(blocks, p) <==> Lacks(lines, p, ids)
    ensures Short(blocks, p) <==> Skips(lines, p, ids)
    ensures Idle(blocks, p) <==> Sleeps(lines, p, ids)
  {
    TotalsMeaning(blocks, p);
    LinesAreBlocks(blocks, lines, ids, p);
    IdleIsNotMissing(blocks);
    hide Missing, Short, Idle, Describes, Holds, Run;
  }

  lemma BadLineMeans(profile: Profile, i: nat, expected: seq<string>, mode: string, ids: Identities, error: Failure)
    requires i < |profile.lines| && FirstBad(profile.lines, i, mode == "evidence", ids, error)
    ensures Means(error, profile, expected, mode, ids)
  {
    hide WellFormed, Sane, Fit, Readable, ClashesBefore;
    var lines, evidence := profile.lines, mode == "evidence";
    WellFormedIsFit(lines[..i], evidence, ids);
    WellFormedIsFit(lines[..i + 1], evidence, ids);
    SaneMore(lines, i, evidence, ids);
    ReadableIsFit(lines[i], evidence, ids);
  }

  lemma SaneMore(lines: seq<Line>, i: nat, evidence: bool, ids: Identities)
    requires i < |lines| && Sane(lines[..i], evidence, ids)
    ensures Sane(lines[..i + 1], evidence, ids) <==> Fit(lines[i], evidence, ids) && !ClashesBefore(lines, i)
  {
    hide Fit, Clash;
    assert lines[..i + 1] == lines[..i] + [lines[i]];
    assert lines[i] in lines[..i + 1];
    forall a, b ensures (Clash(a, b) <==> Clash(b, a)) && !Clash(a, a) {
      ClashBothWays(a, b);
    }
    if ClashesBefore(lines, i) {
      var j :| 0 <= j < i && Clash(lines[j], lines[i]);
      assert lines[j] == lines[..i + 1][j];
    } else {
      forall a | a in lines[..i] ensures !Clash(a, lines[i]) {
        var j :| 0 <= j < i && lines[..i][j] == a;
        assert !Clash(lines[j], lines[i]);
      }
    }
  }

  lemma ReadableIsFit(l: Line, evidence: bool, ids: Identities)
    ensures Readable(l, evidence, ids) <==> Fit(l, evidence, ids)
  {
  }

  lemma ClashBothWays(a: Line, b: Line)
    ensures Clash(a, b) <==> Clash(b, a)
    ensures !Clash(a, a)
  {
  }

  lemma AllBlocksMean(blocks: map<string, Block>, lines: seq<Line>, ids: Identities)
    requires Describes(blocks, lines, ids)
    ensures forall p :: Missing(blocks, p) <==> Lacks(lines, p, ids)
    ensures forall p :: Short(blocks, p) <==> Skips(lines, p, ids)
    ensures forall p :: Idle(blocks, p) <==> Sleeps(lines, p, ids)
  {
    hide Describes, Missing, Short, Idle, Lacks, Skips, Sleeps;
    forall p
      ensures Missing(blocks, p) <==> Lacks(lines, p, ids)
      ensures Short(blocks, p) <==> Skips(lines, p, ids)
      ensures Idle(blocks, p) <==> Sleeps(lines, p, ids)
    {
      BlockMeaning(blocks, lines, ids, p);
    }
  }

  lemma IdleMeans(blocks: map<string, Block>, profile: Profile, expected: seq<string>, ids: Identities, p: string)
    requires Describes(blocks, profile.lines, ids) && FirstIdle(blocks, Ordering(expected), p)
    ensures Means(NotExecuted(p), profile, expected, "evidence", ids)
    ensures First(NotExecuted(p), profile, expected, "evidence", ids)
  {
    hide Describes, Idle, Sleeps, LexLe, Ordering;
    OrderingFacts(expected);
    AllBlocksMean(blocks, profile.lines, ids);
  }

  lemma FailureMeans(blocks: map<string, Block>, profile: Profile, expected: seq<string>, mode: string, ids: Identities)
    requires Describes(blocks, profile.lines, ids)
    requires Failures(blocks, Ordering(expected), mode == "evidence") != []
    ensures var error := Fault(Failures(blocks, Ordering(expected), mode == "evidence")[0]);
      Means(error, profile, expected, mode, ids) && First(error, profile, expected, mode, ids)
  {
    hide Describes, Missing, Short, Lacks, Skips, LexLe, Ordering, Failures, Sorted, NoDuplicates;
    OrderingFacts(expected);
    AllBlocksMean(blocks, profile.lines, ids);
    FirstFailure(blocks, Ordering(expected), mode == "evidence");
    FaultMeans(Failures(blocks, Ordering(expected), mode == "evidence")[0]);
  }

  lemma ReportedMeans(blocks: map<string, Block>, profile: Profile, expected: seq<string>, mode: string,
                      ids: Identities, naming: Naming, report: string, error: Failure)
    requires mode in {"exact", "evidence"} && Describes(blocks, profile.lines, ids)
    requires Reported(blocks, expected, mode == "evidence", naming, report, error)
    ensures Means(error, profile, expected, mode, ids) && First(error, profile, expected, mode, ids)
  {
    hide Describes, FirstIdle, Idle, TotalsOf, ReportOf, Failures, Fault, Ordering, Representable;
    OnlyDescription(blocks, profile.lines, ids);
    if Representable(blocks) {
      if mode == "evidence" && exists p :: p in Ordering(expected) && Idle(blocks, p) {
        IdleMeans(blocks, profile, expected, ids, error.packagePath);
      } else {
        FailureMeans(blocks, profile, expected, mode, ids);
      }
    }
  }

  lemma FaultMeans(f: PackageFailure)
    ensures Fault(f) == if f.missing then MissingEvidence(f.packagePath) else BelowExact(f.packagePath)
  {
  }

  /** The first failure is that of the least package that fails. */
  lemma FirstFailure(blocks: map<string, Block>, ordered: seq<string>, evidence: bool)
    requires Sorted(ordered, LexLe) && NoDuplicates(ordered) && Failures(blocks, ordered, evidence) != []
    ensures var f := Failures(blocks, ordered, evidence)[0];
      && f.packagePath in ordered && f.missing == Missing(blocks, f.packagePath)
      && (f.missing || (!evidence && Short(blocks, f.packagePath)))
      && forall q | q in ordered && (Missing(blocks, q) || (!evidence && Short(blocks, q))) :: LexLe(f.packagePath, q)
  {
    hide Missing, Short, LexLe, Sorted, NoDuplicates;
    FailuresMembers(blocks, ordered, evidence);
    FailuresOrdered(blocks, ordered, evidence);
    var failures := Failures(blocks, ordered, evidence);
    assert failures[0] in failures;
    forall q | q in ordered && (Missing(blocks, q) || (!evidence && Short(blocks, q)))
      ensures LexLe(failures[0].packagePath, q)
    {
      var f := PackageFailure(q, Missing(blocks, q));
      assert f in failures;
      var k :| 0 <= k < |failures| && failures[k] == f;
      if k == 0 {
        LexReflexive(q);
      }
    }
  }

  lemma IdleIsNotMissing(blocks: map<string, Block>)
    ensures forall p :: Idle(blocks, p) ==> !Missing(blocks, p)
  {
  }

  /** Whatever error is reported is so, and of several such packages the first in
      order is named. */
  lemma ErrorIsMeant(profile: Profile, expected: seq<string>, mode: string, ids: Identities, naming: Naming,
                     report: string, error: Failure)
    requires Explained(profile, expected, mode, ids, naming, report, error)
    ensures Means(error, profile, expected, mode, ids) && First(error, profile, expected, mode, ids)
  {
    hide HeaderAdmitted, Headed, WellFormed, Describes, Reported;
    var evidence := mode == "evidence";
    HeadedIsAdmitted(profile.header, false);
    HeadedIsAdmitted(profile.header, evidence);
    if mode in {"exact", "evidence"} && expected != [] && HeaderAdmitted(profile.header, false)
      && HeaderAdmitted(profile.header, evidence)
    {
      if !WellFormed(profile.lines, evidence, ids) {
        var i: nat :| i < |profile.lines| && FirstBad(profile.lines, i, evidence, ids, error);
        BadLineMeans(profile, i, expected, mode, ids, error);
      } else if !profile.broken {
        var blocks := DescriptionExists(profile.lines, evidence, ids);
        ReportedMeans(blocks, profile, expected, mode, ids, naming, report, error);
      }
    }
  }

  // ----- the summary

  /** One line for each package: how many of its statements are executed, and of how many. */
  ghost function LineFor(blocks: map<string, Block>): string -> string {
    (p: string) => p + " " + Decimal(TotalsOf(blocks, p).covered) + "/" + Decimal(TotalsOf(blocks, p).total) +
      " statements\n"
  }

  lemma {:induction false} SummaryIsExact(blocks: map<string, Block>, ordered: seq<string>)
    ensures Summary(blocks, ordered) == Concatenation(Map(LineFor(blocks), ordered))
  {
    hide TotalsOf;
    if ordered != [] {
      var front, last := ordered[..|ordered| - 1], ordered[|ordered| - 1];
      SummaryIsExact(blocks, front);
      var lines := Map(LineFor(blocks), ordered);
      assert lines[..|lines| - 1] == Map(LineFor(blocks), front);
      assert lines[|lines| - 1] == SummaryLine(last, TotalsOf(blocks, last));
    }
  }
}
