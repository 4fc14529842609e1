/** Statement accounting of a Go coverage profile against the expected packages
    (internal/coverage/profile.go, VerifyWithMode). The verdict is a property of
    the set of lines: neither their order, nor their repetition, nor the order in
    which a map is read can change it. */
module Coverage {
  import opened Wrappers
  import opened Sorting
  import opened Text
  import opened CoverageBlocks
  import opened CoverageReport

  const MAX_INT: nat := 0x7FFF_FFFF_FFFF_FFFF
  const MAX_COUNT: nat := 0xFFFF_FFFF_FFFF_FFFF
  const DIAGNOSTIC_LIMITS := Limits(512, 85_000)

  /** A profile line: three well-formed fields, or not. */
  datatype Line = Malformed | Counted(identity: string, statements: nat, executions: nat)

  /** The file's text: its first line, the lines after it, and whether reading broke off. */
  datatype Profile = Profile(header: Option<string>, lines: seq<Line>, broken: bool)

  /** What the path and pattern libraries say of a block's identity, `file:coordinates`. */
  datatype Identities = Identities(packageOf: string -> string, located: string -> bool)

  datatype Failure =
    | UnknownMode
    | NoExpectedPackages
    | MissingHeader
    | UnsupportedHeader
    | InvalidLine(line: nat)
    | InconsistentLine(line: nat)
    | BrokenProfile
    | Overflow(packagePath: string)
    | NotExecuted(packagePath: string)
    | MissingEvidence(packagePath: string)
    | BelowExact(packagePath: string)

  // ----- merging lines into blocks

  predicate Readable(l: Line, evidence: bool, ids: Identities) {
    && l.Counted? && l.statements <= MAX_INT && l.executions <= MAX_COUNT
    && (evidence ==> ids.located(l.identity))
  }

  ghost predicate Consistent(lines: seq<Line>) {
    forall i, j | 0 <= i < j < |lines| && lines[i].Counted? && lines[j].Counted?
      && lines[i].identity == lines[j].identity ::
      lines[i].statements == lines[j].statements
  }

  ghost predicate WellFormed(lines: seq<Line>, evidence: bool, ids: Identities) {
    (forall l | l in lines :: Readable(l, evidence, ids)) && Consistent(lines)
  }

  ghost predicate Executed(lines: seq<Line>, id: string) {
    exists l :: l in lines && l.Counted? && l.identity == id && l.executions > 0
  }

  /** A map of blocks says exactly what the lines say. */
  ghost predicate Describes(blocks: map<string, Block>, lines: seq<Line>, ids: Identities) {
    && (forall l | l in lines :: l.Counted? && l.identity in blocks && blocks[l.identity].statements == l.statements)
    && (forall id | id in blocks :: (exists l :: l in lines && l.Counted? && l.identity == id)
          && blocks[id].packagePath == ids.packageOf(id) && blocks[id].covered == Executed(lines, id))
  }

  lemma DescribesUnique(a: map<string, Block>, b: map<string, Block>, l: seq<Line>, m: seq<Line>, ids: Identities)
    requires Describes(a, l, ids) && Describes(b, m, ids)
    requires forall x :: x in l <==> x in m
    ensures a == b
  {
    forall id ensures id in a <==> id in b {
    }
    forall id | id in a ensures a[id] == b[id] {
      var x :| x in l && x.Counted? && x.identity == id;
      assert x in m;
      assert Executed(l, id) == Executed(m, id);
    }
  }

  method Merge(lines: seq<Line>, evidence: bool, ids: Identities) returns (r: Result<map<string, Block>, Failure>)
    ensures r.Ok? <==> WellFormed(lines, evidence, ids)
    ensures r.Ok? ==> Describes(r.value, lines, ids)
    ensures r.Err? ==> exists i: nat | i < |lines| :: FirstBad(lines, i, evidence, ids, r.error)
  {
    hide WellFormed, Describes, Readable;
    var blocks: map<string, Block> := map[];
    NoLines(evidence, ids);
    for i := 0 to |lines|
      invariant WellFormed(lines[..i], evidence, ids)
      invariant Describes(blocks, lines[..i], ids)
    {
      var l := lines[i];
      OneLine(blocks, lines, i, evidence, ids);
      if !Readable(l, evidence, ids) {
        assert FirstBad(lines, i, evidence, ids, InvalidLine(i + 2));
        return Err(InvalidLine(i + 2));
      }
      if l.identity in blocks
        && (blocks[l.identity].packagePath != ids.packageOf(l.identity)
            || blocks[l.identity].statements != l.statements)
      {
        assert FirstBad(lines, i, evidence, ids, InconsistentLine(i + 2));
        return Err(InconsistentLine(i + 2));
      }
      blocks := blocks[l.identity := Block(ids.packageOf(l.identity), l.statements,
        (l.identity in blocks && blocks[l.identity].covered) || l.executions > 0)];
    }
    assert lines[..|lines|] == lines;
    r := Ok(blocks);
  }

  /** The error names the first line that breaks the profile; the header is line 1. */
  ghost predicate FirstBad(lines: seq<Line>, i: nat, evidence: bool, ids: Identities, e: Failure)
    requires i < |lines|
  {
    && WellFormed(lines[..i], evidence, ids)
    && e == (if !Readable(lines[i], evidence, ids) then InvalidLine(i + 2) else InconsistentLine(i + 2))
    && !WellFormed(lines[..i + 1], evidence, ids)
  }

  lemma NoLines(evidence: bool, ids: Identities)
    ensures WellFormed([], evidence, ids) && Describes(map[], [], ids)
  {
  }

  lemma WellFormedPrefix(lines: seq<Line>, i: nat, evidence: bool, ids: Identities)
    requires i <= |lines| && !WellFormed(lines[..i], evidence, ids)
    ensures !WellFormed(lines, evidence, ids)
  {
    if WellFormed(lines, evidence, ids) {
      forall l | l in lines[..i] ensures Readable(l, evidence, ids) {
      }
    }
  }

  /** One more line: it is unreadable, or contradicts an earlier one, or extends the map. */
  lemma OneLine(blocks: map<string, Block>, lines: seq<Line>, i: nat, evidence: bool, ids: Identities)
    requires i < |lines| && WellFormed(lines[..i], evidence, ids) && Describes(blocks, lines[..i], ids)
    ensures var l := lines[i];
      if !Readable(l, evidence, ids) then
        !WellFormed(lines[..i + 1], evidence, ids) && !WellFormed(lines, evidence, ids)
      else
        && l.Counted?
        && (l.identity in blocks ==> blocks[l.identity].packagePath == ids.packageOf(l.identity))
        && if l.identity in blocks && blocks[l.identity].statements != l.statements then
          !WellFormed(lines[..i + 1], evidence, ids) && !WellFormed(lines, evidence, ids)
        else
          && WellFormed(lines[..i + 1], evidence, ids)
          && Describes(blocks[l.identity := Block(ids.packageOf(l.identity), l.statements,
               (l.identity in blocks && blocks[l.identity].covered) || l.executions > 0)], lines[..i + 1], ids)
  {
    var l := lines[i];
    var front, next := lines[..i], lines[..i + 1];
    assert next == front + [l];
    assert l in next;
    if !Readable(l, evidence, ids) {
      WellFormedPrefix(lines, i + 1, evidence, ids);
    } else if l.identity in blocks && blocks[l.identity].statements != l.statements {
      var m :| m in front && m.Counted? && m.identity == l.identity;
      var j :| 0 <= j < i && front[j] == m;
      assert next[j] == m && next[i] == l;
      WellFormedPrefix(lines, i + 1, evidence, ids);
    } else {
      Extends(blocks, front, l, ids);
      ConsistentExtends(blocks, front, l, ids);
    }
  }

  lemma ConsistentExtends(blocks: map<string, Block>, front: seq<Line>, l: Line, ids: Identities)
    requires Describes(blocks, front, ids) && Consistent(front)
    requires l.Counted? && (l.identity in blocks ==> blocks[l.identity].statements == l.statements)
    ensures Consistent(front + [l])
  {
    var next := front + [l];
    forall j, k | 0 <= j < k < |next| && next[j].Counted? && next[k].Counted? && next[j].identity == next[k].identity
      ensures next[j].statements == next[k].statements
    {
      assert next[j] in front;
      if k < |front| {
        assert front[k] == next[k] && front[j] == next[j];
      }
    }
  }

  lemma Extends(blocks: map<string, Block>, front: seq<Line>, l: Line, ids: Identities)
    requires Describes(blocks, front, ids) && l.Counted?
    requires l.identity in blocks ==> blocks[l.identity].statements == l.statements
    ensures Describes(blocks[l.identity := Block(ids.packageOf(l.identity), l.statements,
      (l.identity in blocks && blocks[l.identity].covered) || l.executions > 0)], front + [l], ids)
  {
    var next := blocks[l.identity := Block(ids.packageOf(l.identity), l.statements,
      (l.identity in blocks && blocks[l.identity].covered) || l.executions > 0)];
    assert l in front + [l];
    forall id | id in next
      ensures exists x :: x in front + [l] && x.Counted? && x.identity == id
      ensures next[id].covered == Executed(front + [l], id)
    {
      if id in blocks {
        var x :| x in front && x.Counted? && x.identity == id;
        assert x in front + [l];
      }
      if Executed(front, id) {
        var y :| y in front && y.Counted? && y.identity == id && y.executions > 0;
        assert y in front + [l];
      }
    }
  }

  // ----- package totals

  datatype Totals = Totals(covered: nat, total: nat)

  ghost function Sum(ids: set<string>, f: string -> nat): nat {
    if ids == {} then 0 else
      var id :| id in ids;
      f(id) + Sum(ids - {id}, f)
  }

  lemma {:induction false} SumSplit(ids: set<string>, f: string -> nat, x: string)
    requires x in ids
    ensures Sum(ids, f) == f(x) + Sum(ids - {x}, f)
    decreases |ids|
  {
    var id :| id in ids && Sum(ids, f) == f(id) + Sum(ids - {id}, f);
    if id != x {
      SumSplit(ids - {id}, f, x);
      SumSplit(ids - {x}, f, id);
      assert ids - {id} - {x} == ids - {x} - {id};
    }
  }

  lemma {:induction false} SumMonotone(small: set<string>, large: set<string>, f: string -> nat)
    requires small <= large
    ensures Sum(small, f) <= Sum(large, f)
    decreases |large|
  {
    if small == large {
    } else {
      var x :| x in large && x !in small;
      SumSplit(large, f, x);
      SumMonotone(small, large - {x}, f);
    }
  }

  lemma {:induction false} SumPositive(ids: set<string>, f: string -> nat)
    ensures Sum(ids, f) > 0 <==> exists id :: id in ids && f(id) > 0
    decreases |ids|
  {
    if ids != {} {
      var x :| x in ids;
      SumSplit(ids, f, x);
      SumPositive(ids - {x}, f);
    }
  }

  lemma {:induction false} SumCompare(ids: set<string>, f: string -> nat, g: string -> nat)
    requires forall id | id in ids :: f(id) <= g(id)
    ensures Sum(ids, f) <= Sum(ids, g)
    ensures Sum(ids, f) == Sum(ids, g) <==> forall id | id in ids :: f(id) == g(id)
    decreases |ids|
  {
    if ids != {} {
      var x :| x in ids;
      SumSplit(ids, f, x);
      SumSplit(ids, g, x);
      SumCompare(ids - {x}, f, g);
    }
  }

  ghost function Statements(blocks: map<string, Block>, packagePath: string): string -> nat {
    (id: string) => if id in blocks && blocks[id].packagePath == packagePath then blocks[id].statements else 0
  }

  ghost function CoveredStatements(blocks: map<string, Block>, packagePath: string): string -> nat {
    (id: string) => if id in blocks && blocks[id].packagePath == packagePath && blocks[id].covered
        then blocks[id].statements else 0
  }

  /** The true sums of one package, over unbounded integers. */
  ghost function TotalsIn(blocks: map<string, Block>, ids: set<string>, packagePath: string): Totals {
    Totals(Sum(ids, CoveredStatements(blocks, packagePath)), Sum(ids, Statements(blocks, packagePath)))
  }

  ghost function TotalsOf(blocks: map<string, Block>, packagePath: string): Totals {
    TotalsIn(blocks, blocks.Keys, packagePath)
  }

  ghost predicate Representable(blocks: map<string, Block>) {
    forall p :: TotalsOf(blocks, p).total <= MAX_INT
  }

  /** A map read as Go reads it: an absent package has zero totals. */
  function At(packages: map<string, Totals>, p: string): Totals {
    if p in packages then packages[p] else Totals(0, 0)
  }

  lemma TotalsStep(blocks: map<string, Block>, done: set<string>, id: string, p: string)
    requires id in blocks && id !in done
    ensures var b := blocks[id]; var before := TotalsIn(blocks, done, p);
      TotalsIn(blocks, done + {id}, p) ==
        if b.packagePath != p then before
        else Totals(before.covered + (if b.covered then b.statements else 0), before.total + b.statements)
  {
    SumSplit(done + {id}, CoveredStatements(blocks, p), id);
    SumSplit(done + {id}, Statements(blocks, p), id);
    assert done + {id} - {id} == done;
  }

  method AddUp(blocks: map<string, Block>) returns (r: Result<map<string, Totals>, string>)
    ensures r.Ok? <==> Representable(blocks)
    ensures r.Ok? ==> forall p :: At(r.value, p) == TotalsOf(blocks, p)
    ensures r.Err? ==> TotalsOf(blocks, r.error).total > MAX_INT
  {
    hide TotalsIn;
    var packages: map<string, Totals> := map[];
    var pending := blocks.Keys;
    NothingAdded(blocks);
    while pending != {}
      invariant pending <= blocks.Keys
      invariant forall p :: At(packages, p) == TotalsIn(blocks, blocks.Keys - pending, p)
      invariant forall p :: At(packages, p).total <= MAX_INT
    {
      var id :| id in pending;
      var b := blocks[id];
      var value := At(packages, b.packagePath);
      ghost var done := blocks.Keys - pending;
      assert blocks.Keys - (pending - {id}) == done + {id};
      forall p ensures TotalsIn(blocks, done + {id}, p) == if b.packagePath != p then At(packages, p)
          else Totals(value.covered + (if b.covered then b.statements else 0), value.total + b.statements) {
        TotalsStep(blocks, done, id, p);
      }
      if b.statements > MAX_INT - value.total {
        PartialTotal(blocks, done + {id}, b.packagePath);
        return Err(b.packagePath);
      }
      packages := packages[b.packagePath :=
        Totals(value.covered + if b.covered then b.statements else 0, value.total + b.statements)];
      pending := pending - {id};
    }
    assert blocks.Keys - pending == blocks.Keys;
    r := Ok(packages);
  }

  lemma NothingAdded(blocks: map<string, Block>)
    ensures forall p :: TotalsIn(blocks, blocks.Keys - blocks.Keys, p) == Totals(0, 0)
  {
  }

  lemma PartialTotal(blocks: map<string, Block>, ids: set<string>, p: string)
    requires ids <= blocks.Keys
    ensures TotalsIn(blocks, ids, p).total <= TotalsOf(blocks, p).total
  {
    SumMonotone(ids, blocks.Keys, Statements(blocks, p));
  }

  // ----- the expected packages

  function Distinct(s: seq<string>): seq<string> {
    if s == [] then []
    else
      var rest := Distinct(s[1..]);
      if s[0] in s[1..] then rest else [s[0]] + rest
  }

  /** Each expected package once, in order. */
  function Ordering(expected: seq<string>): seq<string> {
    Sort(Distinct(expected), LexLe)
  }

  lemma {:induction false} DistinctFacts(s: seq<string>)
    ensures NoDuplicates(Distinct(s))
    ensures forall x :: x in Distinct(s) <==> x in s
  {
    if s != [] {
      DistinctFacts(s[1..]);
    }
  }

  lemma OrderingFacts(expected: seq<string>)
    ensures Sorted(Ordering(expected), LexLe) && NoDuplicates(Ordering(expected))
    ensures forall x :: x in Ordering(expected) <==> x in expected
  {
    LexOrder();
    var distinct := Distinct(expected);
    DistinctFacts(expected);
    SortPermutes(distinct, LexLe);
    SortSorted(distinct, LexLe);
    SameBagSameMembers(Ordering(expected), distinct);
    NoDuplicatesBag(distinct);
    NoDuplicatesBag(Ordering(expected));
  }

  method OrderExpected(expected: seq<string>) returns (ordered: seq<string>)
    ensures ordered == Ordering(expected)
  {
    var pending := set x | x in expected;
    ghost var all := pending;
    ordered := [];
    while pending != {}
      invariant pending <= all
      invariant Enumerates(ordered, all - pending)
    {
      var x :| x in pending;
      ordered, pending := ordered + [x], pending - {x};
    }
    LexOrder();
    LexKeysDecide(ordered);
    DistinctFacts(expected);
    EnumerationsAgree(ordered, Distinct(expected));
    SortForgetsOrder(ordered, Distinct(expected), LexLe);
    ordered := Sort(ordered, LexLe);
  }

  // ----- the verdict

  ghost predicate Missing(blocks: map<string, Block>, p: string) { TotalsOf(blocks, p).total == 0 }

  ghost predicate Short(blocks: map<string, Block>, p: string) {
    TotalsOf(blocks, p).covered != TotalsOf(blocks, p).total
  }

  ghost predicate Idle(blocks: map<string, Block>, p: string) {
    !Missing(blocks, p) && TotalsOf(blocks, p).covered == 0
  }

  /** The failed packages, in order. */
  ghost function Failures(blocks: map<string, Block>, ordered: seq<string>, evidence: bool): seq<PackageFailure> {
    if ordered == [] then []
    else
      var p := ordered[|ordered| - 1];
      var before := Failures(blocks, ordered[..|ordered| - 1], evidence);
      if Missing(blocks, p) then before + [PackageFailure(p, true)]
      else if !evidence && Short(blocks, p) then before + [PackageFailure(p, false)]
      else before
  }

  function Fault(f: PackageFailure): Failure {
    if f.missing then MissingEvidence(f.packagePath) else BelowExact(f.packagePath)
  }

  ghost function Summary(blocks: map<string, Block>, ordered: seq<string>): string {
    if ordered == [] then ""
    else
      var p := ordered[|ordered| - 1];
      Summary(blocks, ordered[..|ordered| - 1]) + SummaryLine(p, TotalsOf(blocks, p))
  }

  function SummaryLine(p: string, t: Totals): string {
    p + " " + Decimal(t.covered) + "/" + Decimal(t.total) + " statements\n"
  }

  /** Every expected package has statements, and in exact mode none unexecuted;
      in evidence mode at least one executed. */
  ghost predicate Sufficient(blocks: map<string, Block>, expected: seq<string>, evidence: bool) {
    forall p | p in expected :: !Missing(blocks, p) && if evidence then !Idle(blocks, p) else !Short(blocks, p)
  }

  ghost predicate FirstIdle(blocks: map<string, Block>, ordered: seq<string>, p: string) {
    p in ordered && Idle(blocks, p) && forall q | q in ordered && Idle(blocks, q) :: LexLe(p, q)
  }

  lemma LeastIdle(blocks: map<string, Block>, ordered: seq<string>, i: nat)
    requires Sorted(ordered, LexLe) && i < |ordered| && Idle(blocks, ordered[i])
    requires forall q | q in ordered[..i] :: !Idle(blocks, q)
    ensures FirstIdle(blocks, ordered, ordered[i])
  {
    hide LexLe, Idle;
    LexReflexive(ordered[i]);
  }

  method Judge(packages: map<string, Totals>, ordered: seq<string>, evidence: bool, ghost blocks: map<string, Block>)
    returns (failures: seq<PackageFailure>, idle: Option<string>)
    requires Sorted(ordered, LexLe)
    requires forall p :: At(packages, p) == TotalsOf(blocks, p)
    ensures idle.None? ==> failures == Failures(blocks, ordered, evidence)
    ensures idle.None? <==> !(evidence && exists p :: p in ordered && Idle(blocks, p))
    ensures idle.Some? ==> FirstIdle(blocks, ordered, idle.value)
  {
    hide TotalsOf;
    failures := [];
    for i := 0 to |ordered|
      invariant failures == Failures(blocks, ordered[..i], evidence)
      invariant evidence ==> forall p | p in ordered[..i] :: !Idle(blocks, p)
    {
      var p := ordered[i];
      assert ordered[..i + 1][..i] == ordered[..i];
      assert At(packages, p) == TotalsOf(blocks, p);
      var value := At(packages, p);
      if value.total == 0 {
        failures := failures + [PackageFailure(p, true)];
        continue;
      }
      if evidence && value.covered == 0 {
        LeastIdle(blocks, ordered, i);
        return failures, Some(p);
      }
      if !evidence && value.covered != value.total {
        failures := failures + [PackageFailure(p, false)];
      }
    }
    assert ordered[..|ordered|] == ordered;
    idle := None;
  }

  method Summarize(packages: map<string, Totals>, ordered: seq<string>, ghost blocks: map<string, Block>)
    returns (report: string)
    requires forall p :: At(packages, p) == TotalsOf(blocks, p)
    ensures report == Summary(blocks, ordered)
  {
    hide TotalsOf, SummaryLine;
    report := "";
    for i := 0 to |ordered|
      invariant report == Summary(blocks, ordered[..i])
    {
      assert ordered[..i + 1][..i] == ordered[..i];
      assert At(packages, ordered[i]) == TotalsOf(blocks, ordered[i]);
      report := report + SummaryLine(ordered[i], At(packages, ordered[i]));
    }
    assert ordered[..|ordered|] == ordered;
  }

  lemma {:induction false} FailuresMembers(blocks: map<string, Block>, ordered: seq<string>, evidence: bool)
    ensures forall f :: f in Failures(blocks, ordered, evidence) <==>
      && f.packagePath in ordered && f.missing == Missing(blocks, f.packagePath)
      && (f.missing || (!evidence && Short(blocks, f.packagePath)))
  {
    hide Missing, Short;
    if ordered != [] {
      FailuresMembers(blocks, ordered[..|ordered| - 1], evidence);
      assert ordered == ordered[..|ordered| - 1] + [ordered[|ordered| - 1]];
    }
  }

  lemma {:induction false} FailuresOrdered(blocks: map<string, Block>, ordered: seq<string>, evidence: bool)
    requires Sorted(ordered, LexLe) && NoDuplicates(ordered)
    ensures Ordered(Failures(blocks, ordered, evidence))
  {
    hide Missing, Short, LexLe;
    if ordered != [] {
      var front := ordered[..|ordered| - 1];
      FailuresOrdered(blocks, front, evidence);
      FailuresMembers(blocks, front, evidence);
      forall f | f in Failures(blocks, front, evidence)
        ensures LexLe(f.packagePath, ordered[|front|]) && f.packagePath != ordered[|front|]
      {
        var i :| 0 <= i < |front| && front[i] == f.packagePath;
        assert ordered[i] == f.packagePath;
      }
    }
  }

  // ----- the whole check

  ghost predicate Accountable(lines: seq<Line>, evidence: bool, ids: Identities) {
    WellFormed(lines, evidence, ids) && forall blocks | Describes(blocks, lines, ids) :: Representable(blocks)
  }

  predicate HeaderAdmitted(header: Option<string>, evidence: bool) {
    && header.Some? && "mode: " <= header.value
    && (evidence ==> header.value == "mode: atomic" || header.value == "mode: count" || header.value == "mode: set")
  }

  ghost predicate Passes(profile: Profile, expected: seq<string>, mode: string, ids: Identities) {
    && (mode == "exact" || mode == "evidence") && expected != []
    && HeaderAdmitted(profile.header, mode == "evidence")
    && Accountable(profile.lines, mode == "evidence", ids) && !profile.broken
    && forall blocks | Describes(blocks, profile.lines, ids) :: Sufficient(blocks, expected, mode == "evidence")
  }

  /** What a failure of the accounting says is so, and what is printed with it. */
  ghost predicate Reported(blocks: map<string, Block>, expected: seq<string>, evidence: bool, naming: Naming,
                           report: string, error: Failure) {
    var ordered := Ordering(expected);
    var failures := Failures(blocks, ordered, evidence);
    if !Representable(blocks) then report == "" && error.Overflow?
      && TotalsOf(blocks, error.packagePath).total > MAX_INT
    else if evidence && exists p :: p in ordered && Idle(blocks, p) then
      report == "" && error.NotExecuted? && FirstIdle(blocks, ordered, error.packagePath)
    else failures != [] && error == Fault(failures[0]) && ReportOf(blocks, failures, evidence, naming, report)
  }

  ghost predicate ReportOf(blocks: map<string, Block>, failures: seq<PackageFailure>, evidence: bool, naming: Naming,
                           report: string) {
    if evidence then report == ""
    else Ordered(failures) && forall order | Enumerates(order, blocks.Keys) ::
      report == Rendered(blocks, order, failures, Limits(512, 85_000), naming)
  }

  /** The first check that fails decides the error. */
  ghost predicate Explained(profile: Profile, expected: seq<string>, mode: string, ids: Identities, naming: Naming,
                            report: string, error: Failure) {
    var evidence := mode == "evidence";
    if mode != "exact" && mode != "evidence" then report == "" && error == UnknownMode
    else if expected == [] then report == "" && error == NoExpectedPackages
    else if !HeaderAdmitted(profile.header, false) then report == "" && error == MissingHeader
    else if !HeaderAdmitted(profile.header, evidence) then report == "" && error == UnsupportedHeader
    else if !WellFormed(profile.lines, evidence, ids) then
      report == "" && exists i: nat | i < |profile.lines| :: FirstBad(profile.lines, i, evidence, ids, error)
    else if profile.broken then report == "" && error == BrokenProfile
    else forall blocks | Describes(blocks, profile.lines, ids) ::
      Reported(blocks, expected, evidence, naming, report, error)
  }

  method VerifyWithMode(profile: Profile, expected: seq<string>, mode: string, ids: Identities, naming: Naming)
    returns (report: string, error: Option<Failure>)
    ensures error.None? <==> Passes(profile, expected, mode, ids)
    ensures forall blocks | error.None? && Describes(blocks, profile.lines, ids) ::
      report == Summary(blocks, Ordering(expected))
    ensures error.Some? ==> Explained(profile, expected, mode, ids, naming, report, error.value)
  {
    hide Describes, WellFormed, Representable, Rendered, FirstIdle, Failures, Sorted, NoDuplicates, TotalsOf, Ordering;
    hide LexLe, Ordered;
    if mode != "exact" && mode != "evidence" {
      return "", Some(UnknownMode);
    }
    var evidence := mode == "evidence";
    if expected == [] {
      return "", Some(NoExpectedPackages);
    }
    if profile.header.None? || !("mode: " <= profile.header.value) {
      return "", Some(MissingHeader);
    }
    if !HeaderAdmitted(profile.header, evidence) {
      return "", Some(UnsupportedHeader);
    }
    var merged := Merge(profile.lines, evidence, ids);
    if merged.Err? {
      return "", Some(merged.error);
    }
    if profile.broken {
      return "", Some(BrokenProfile);
    }
    var blocks := merged.value;
    OnlyDescription(blocks, profile.lines, ids);
    var sums := AddUp(blocks);
    if sums.Err? {
      return "", Some(Overflow(sums.error));
    }
    var ordered := OrderExpected(expected);
    OrderingFacts(expected);
    var failures, idle := Judge(sums.value, ordered, evidence, blocks);
    Sufficiency(blocks, expected, evidence);
    if idle.Some? {
      return "", Some(NotExecuted(idle.value));
    }
    FailuresOrdered(blocks, ordered, evidence);
    if failures != [] {
      if evidence {
        return "", Some(Fault(failures[0]));
      }
      report := IncompleteReport(blocks, failures, DIAGNOSTIC_LIMITS, naming);
      return report, Some(Fault(failures[0]));
    }
    report := Summarize(sums.value, ordered, blocks);
    error := None;
  }

  lemma OnlyDescription(blocks: map<string, Block>, lines: seq<Line>, ids: Identities)
    requires Describes(blocks, lines, ids)
    ensures forall other | Describes(other, lines, ids) :: other == blocks
  {
    forall other | Describes(other, lines, ids) ensures other == blocks {
      DescribesUnique(other, blocks, lines, lines, ids);
    }
  }

  lemma Sufficiency(blocks: map<string, Block>, expected: seq<string>, evidence: bool)
    ensures var ordered := Ordering(expected);
      Sufficient(blocks, expected, evidence) <==>
        (Failures(blocks, ordered, evidence) == [] && !(evidence && exists p :: p in ordered && Idle(blocks, p)))
  {
    hide TotalsOf, Ordering;
    var ordered := Ordering(expected);
    OrderingFacts(expected);
    FailuresMembers(blocks, ordered, evidence);
    var failures := Failures(blocks, ordered, evidence);
    assert failures == [] || failures[0] in failures;
    if failures == [] {
      forall p | p in expected ensures !Missing(blocks, p) && (evidence || !Short(blocks, p)) {
        assert PackageFailure(p, Missing(blocks, p)) !in failures;
      }
    }
  }

  // ----- what a verdict means of the lines themselves

  /** Some line of the package holds statements. */
  ghost predicate HasStatements(lines: seq<Line>, p: string, ids: Identities) {
    exists l :: l in lines && l.Counted? && ids.packageOf(l.identity) == p && l.statements > 0
  }

  /** Exact coverage, read off the profile: every package has statements, and every
      block with statements is executed on some line. */
  ghost predicate ExactlyCovered(lines: seq<Line>, expected: seq<string>, ids: Identities) {
    forall p | p in expected ::
      HasStatements(lines, p, ids)
      && forall l | l in lines && l.Counted? && ids.packageOf(l.identity) == p && l.statements > 0 ::
        Executed(lines, l.identity)
  }

  ghost predicate SomewhatCovered(lines: seq<Line>, expected: seq<string>, ids: Identities) {
    forall p | p in expected ::
      exists l ::
        l in lines && l.Counted? && ids.packageOf(l.identity) == p && l.statements > 0 && Executed(lines, l.identity)
  }

  lemma TotalsMeaning(blocks: map<string, Block>, p: string)
    ensures Missing(blocks, p) <==>
      forall id | id in blocks && blocks[id].packagePath == p :: blocks[id].statements == 0
    ensures Short(blocks, p) <==>
      exists id :: id in blocks && blocks[id].packagePath == p && blocks[id].statements > 0 && !blocks[id].covered
    ensures !Missing(blocks, p) ==>
      (Idle(blocks, p) <==>
        forall id | id in blocks && blocks[id].packagePath == p && blocks[id].covered :: blocks[id].statements == 0)
  {
    var all, covered := Statements(blocks, p), CoveredStatements(blocks, p);
    SumPositive(blocks.Keys, all);
    SumPositive(blocks.Keys, covered);
    SumCompare(blocks.Keys, covered, all);
    forall id | id in blocks
      ensures covered(id) == all(id) <==>
        !(blocks[id].packagePath == p && blocks[id].statements > 0 && !blocks[id].covered)
    {
    }
    forall id | id in blocks ensures all(id) > 0 <==> blocks[id].packagePath == p && blocks[id].statements > 0 {
    }
    forall id | id in blocks
      ensures covered(id) > 0 <==> blocks[id].packagePath == p && blocks[id].covered && blocks[id].statements > 0
    {
    }
  }

  lemma BlocksAreLines(blocks: map<string, Block>, lines: seq<Line>, ids: Identities, p: string)
    requires Describes(blocks, lines, ids)
    ensures (!Missing(blocks, p) && !Short(blocks, p)) <==>
      (HasStatements(lines, p, ids)
       && forall l | l in lines && l.Counted? && ids.packageOf(l.identity) == p && l.statements > 0 ::
         Executed(lines, l.identity))
    ensures (!Missing(blocks, p) && !Idle(blocks, p)) <==>
      exists l ::
        l in lines && l.Counted? && ids.packageOf(l.identity) == p && l.statements > 0 && Executed(lines, l.identity)
  {
    hide Missing, Short, Idle, Executed;
    TotalsMeaning(blocks, p);
    forall id | id in blocks
      ensures exists l :: l in lines && l.Counted? && l.identity == id && l.statements == blocks[id].statements
    {
      var l :| l in lines && l.Counted? && l.identity == id;
    }
  }

  /** The statement sums say exactly what the lines say. */
  lemma SufficientMeaning(blocks: map<string, Block>, lines: seq<Line>, expected: seq<string>, ids: Identities)
    requires Describes(blocks, lines, ids)
    ensures Sufficient(blocks, expected, false) <==> ExactlyCovered(lines, expected, ids)
    ensures Sufficient(blocks, expected, true) <==> SomewhatCovered(lines, expected, ids)
  {
    hide Missing, Short, Idle, Describes;
    forall p ensures (!Missing(blocks, p) && !Short(blocks, p)) <==>
      (HasStatements(lines, p, ids)
       && forall l | l in lines && l.Counted? && ids.packageOf(l.identity) == p && l.statements > 0 ::
         Executed(lines, l.identity))
      ensures (!Missing(blocks, p) && !Idle(blocks, p)) <==>
        exists l ::
          l in lines && l.Counted? && ids.packageOf(l.identity) == p && l.statements > 0 && Executed(lines, l.identity)
    {
      BlocksAreLines(blocks, lines, ids, p);
    }
  }

  /** Neither the order nor the repetition of the profile's lines, nor the order
      of the expected packages, can change the verdict. */
  lemma VerdictForgetsOrder(profile: Profile, other: Profile, expected: seq<string>, names: seq<string>, mode: string,
                            ids: Identities)
    requires other.header == profile.header && other.broken == profile.broken
    requires forall l :: l in profile.lines <==> l in other.lines
    requires forall p :: p in expected <==> p in names
    ensures Passes(profile, expected, mode, ids) <==> Passes(other, names, mode, ids)
  {
    hide Representable, Missing, Short, Idle;
    forall blocks ensures Describes(blocks, profile.lines, ids) <==> Describes(blocks, other.lines, ids) {
      DescriptionForgetsOrder(blocks, profile.lines, other.lines, ids);
      DescriptionForgetsOrder(blocks, other.lines, profile.lines, ids);
    }
    ConsistencyForgetsOrder(profile.lines, other.lines);
    ConsistencyForgetsOrder(other.lines, profile.lines);
    assert expected == [] <==> names == [] by {
      if expected != [] { assert expected[0] in names; }
      if names != [] { assert names[0] in expected; }
    }
  }

  lemma ConsistencyForgetsOrder(a: seq<Line>, b: seq<Line>)
    requires forall l :: l in a <==> l in b
    ensures Consistent(a) ==> Consistent(b)
  {
    if Consistent(a) {
      forall i, j | 0 <= i < j < |b| && b[i].Counted? && b[j].Counted? && b[i].identity == b[j].identity
        ensures b[i].statements == b[j].statements
      {
        assert b[i] in b && b[j] in b;
        var m :| 0 <= m < |a| && a[m] == b[i];
        var n :| 0 <= n < |a| && a[n] == b[j];
      }
    }
  }

  lemma DescriptionForgetsOrder(blocks: map<string, Block>, a: seq<Line>, b: seq<Line>, ids: Identities)
    requires forall l :: l in a <==> l in b
    ensures Describes(blocks, a, ids) ==> Describes(blocks, b, ids)
  {
    forall id ensures Executed(a, id) <==> Executed(b, id) {
    }
  }

  lemma {:induction false} DescriptionExists(lines: seq<Line>, evidence: bool, ids: Identities)
    returns (blocks: map<string, Block>)
    requires WellFormed(lines, evidence, ids)
    ensures Describes(blocks, lines, ids)
  {
    if lines == [] {
      blocks := map[];
    } else {
      var i := |lines| - 1;
      assert lines[..i + 1] == lines;
      blocks := DescriptionExists(lines[..i], evidence, ids);
      OneLine(blocks, lines, i, evidence, ids);
      blocks := blocks[lines[i].identity := Block(ids.packageOf(lines[i].identity), lines[i].statements,
        (lines[i].identity in blocks && blocks[lines[i].identity].covered) || lines[i].executions > 0)];
    }
  }

  /** An accountable profile passes exactly when its own lines cover the expected packages. */
  lemma VerdictMeaning(profile: Profile, expected: seq<string>, mode: string, ids: Identities)
    requires (mode == "exact" || mode == "evidence") && expected != []
    requires HeaderAdmitted(profile.header, mode == "evidence")
    requires Accountable(profile.lines, mode == "evidence", ids) && !profile.broken
    ensures Passes(profile, expected, mode, ids) <==>
      (if mode == "exact" then ExactlyCovered(profile.lines, expected, ids)
       else SomewhatCovered(profile.lines, expected, ids))
  {
    hide WellFormed, Describes, Sufficient, ExactlyCovered, SomewhatCovered;
    var blocks := DescriptionExists(profile.lines, mode == "evidence", ids);
    OnlyDescription(blocks, profile.lines, ids);
    SufficientMeaning(blocks, profile.lines, expected, ids);
  }
}
