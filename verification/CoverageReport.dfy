/** The bounded diagnostics printed when exact coverage fails
    (internal/coverage/profile.go, incompleteReport): kept locations are merged
    with the failed packages, under one byte allowance shared with the omission
    counts at the end. */
module CoverageReport {
  import opened Sorting
  import opened Text
  import opened CoverageBlocks

  // ----- what is printed

  /** The part of the byte allowance open to a line: footers alone may use the reserve. */
  function Maximum(limit: nat, footer: bool): nat {
    if footer then limit else if limit < FOOTER_RESERVE then 0 else limit - FOOTER_RESERVE
  }

  class Report {
    const limit: nat
    var text: string

    constructor (limit: nat)
      ensures this.limit == limit && text == ""
    {
      this.limit := limit;
      text := "";
    }

    method Write(addition: string, footer: bool) returns (written: bool)
      modifies this
      ensures written == (|old(text)| + |addition| <= Maximum(limit, footer))
      ensures text == if written then old(text) + addition else old(text)
    {
      if |addition| > Maximum(limit, footer) - |text| {
        return false;
      }
      text := text + addition;
      return true;
    }
  }

  /** The text so far, the locations shown in it and the packages left out of it. */
  datatype Progress = Progress(text: string, shown: seq<Location>, omittedPackages: nat)

  ghost function Fitting(text: string, addition: string, maximum: nat): string {
    if |text| + |addition| <= maximum then text + addition else text
  }

  function LocationLine(indent: string, l: Location): string {
    indent + l.location + "\n"
  }

  /** The locations of one list that fit, one by one. */
  ghost function WithLocations(p: Progress, indent: string, locations: seq<Location>, maximum: nat): Progress {
    if locations == [] then p
    else
      var before := WithLocations(p, indent, locations[..|locations| - 1], maximum);
      var last := locations[|locations| - 1];
      var line := LocationLine(indent, last);
      if |before.text| + |line| <= maximum then before.(text := before.text + line, shown := before.shown + [last])
      else before
  }

  function OwnedBy(locations: seq<Location>, packagePath: string): seq<Location> {
    if locations == [] then []
    else if locations[0].packagePath == packagePath then [locations[0]] + OwnedBy(locations[1..], packagePath)
    else OwnedBy(locations[1..], packagePath)
  }

  function Caption(f: PackageFailure, naming: Naming): string {
    var shown := naming.caption(f.packagePath);
    if |shown| > LOCATION_BYTE_LIMIT then "" else shown
  }

  function Heading(f: PackageFailure, naming: Naming): string {
    "  " + Caption(f, naming) + if f.missing then " missing executable coverage evidence\n"
      else " is below exact 100% coverage\n"
  }

  /** A package's heading, and its own locations only when the heading is shown. */
  ghost function WithSection(p: Progress, f: PackageFailure, own: seq<Location>, naming: Naming,
                             maximum: nat): Progress {
    var heading := Heading(f, naming);
    if Caption(f, naming) != "" && |p.text| + |heading| <= maximum
    then WithLocations(p.(text := p.text + heading), "    ", own, maximum)
    else p.(omittedPackages := p.omittedPackages + 1)
  }

  ghost function WithSections(p: Progress, failures: seq<PackageFailure>, locations: seq<Location>, naming: Naming,
                              maximum: nat): Progress {
    if failures == [] then p
    else
      var last := failures[|failures| - 1];
      WithSection(WithSections(p, failures[..|failures| - 1], locations, naming, maximum), last,
                  OwnedBy(locations, last.packagePath), naming, maximum)
  }

  ghost function Body(failures: seq<PackageFailure>, locations: seq<Location>, naming: Naming, limit: nat): Progress {
    var maximum := Maximum(limit, false);
    if |failures| == 1
    then WithLocations(Progress(Fitting("", "uncovered production blocks:\n", maximum), [], 0), "  ", locations,
                       maximum)
    else WithSections(Progress(Fitting("", "incomplete production coverage:\n", maximum), [], 0), failures, locations,
                      naming, maximum)
  }

  function BlockFooter(omitted: nat): string {
    if omitted == 0 then "" else "  (" + Decimal(omitted) + " additional blocks omitted)\n"
  }

  function PackageFooter(omitted: nat): string {
    if omitted == 0 then "" else "  (" + Decimal(omitted) + " additional packages omitted)\n"
  }

  function FailedPackages(failures: seq<PackageFailure>): set<string> {
    set f | f in failures :: f.packagePath
  }

  ghost function BodyOf(blocks: map<string, Block>, order: seq<string>, failures: seq<PackageFailure>, limits: Limits,
                        naming: Naming): Progress
    requires forall id | id in order :: id in blocks
  {
    Body(failures, KeptIn(blocks, order, FailedPackages(failures), naming, limits.blocks), naming, limits.bytes)
  }

  ghost function Rendered(blocks: map<string, Block>, order: seq<string>, failures: seq<PackageFailure>, limits: Limits,
                          naming: Naming): string
    requires Enumerates(order, blocks.Keys) && Ordered(failures)
  {
    if |failures| == 1 && failures[0].missing then ""
    else
      var body := BodyOf(blocks, order, failures, limits, naming);
      ShownWithin(blocks, order, failures, limits, naming);
      var text := Fitting(body.text, BlockFooter(|UncoveredBlocks(blocks, FailedPackages(failures))| - |body.shown|),
                          limits.bytes);
      Fitting(text, PackageFooter(body.omittedPackages), limits.bytes)
  }

  // ----- the merge of the two sorted lists

  /** Failures come in strictly increasing package order. */
  ghost predicate Ordered(failures: seq<PackageFailure>) {
    forall i, j | 0 <= i < j < |failures| ::
      LexLe(failures[i].packagePath, failures[j].packagePath) && failures[i].packagePath != failures[j].packagePath
  }

  lemma {:induction false} NoneOwned(s: seq<Location>, p: string)
    requires forall l | l in s :: l.packagePath != p
    ensures OwnedBy(s, p) == []
  {
    if s != [] {
      NoneOwned(s[1..], p);
    }
  }

  lemma {:induction false} AllOwned(s: seq<Location>, p: string)
    requires forall l | l in s :: l.packagePath == p
    ensures OwnedBy(s, p) == s
  {
    if s != [] {
      AllOwned(s[1..], p);
    }
  }

  lemma {:induction false} OwnedByParts(a: seq<Location>, b: seq<Location>, p: string)
    ensures OwnedBy(a + b, p) == OwnedBy(a, p) + OwnedBy(b, p)
  {
    if a == [] {
      assert a + b == b;
    } else {
      OwnedByParts(a[1..], b, p);
      assert (a + b)[1..] == a[1..] + b;
    }
  }

  lemma OwnedIsRun(s: seq<Location>, low: nat, high: nat, p: string)
    requires low <= high <= |s|
    requires forall i | 0 <= i < low :: s[i].packagePath != p
    requires forall i | low <= i < high :: s[i].packagePath == p
    requires forall i | high <= i < |s| :: s[i].packagePath != p
    ensures OwnedBy(s, p) == s[low..high]
  {
    assert s == s[..low] + (s[low..high] + s[high..]);
    OwnedByParts(s[..low], s[low..high] + s[high..], p);
    OwnedByParts(s[low..high], s[high..], p);
    NoneOwned(s[..low], p);
    AllOwned(s[low..high], p);
    NoneOwned(s[high..], p);
  }

  ghost predicate FailsBetween(failures: seq<PackageFailure>, low: nat, high: nat, p: string) {
    exists f | low <= f < high <= |failures| :: failures[f].packagePath == p
  }

  /** Where the merge stands before failure `i`: everything before `at` belongs
      to an earlier failure, everything from `at` on to this or a later one. */
  ghost predicate Consumed(locations: seq<Location>, at: nat, failures: seq<PackageFailure>, i: nat) {
    && i <= |failures| && at <= |locations|
    && (forall k | 0 <= k < at :: FailsBetween(failures, 0, i, locations[k].packagePath))
    && (forall k | at <= k < |locations| :: FailsBetween(failures, i, |failures|, locations[k].packagePath))
  }

  lemma StrictlyAfter(p: string, q: string, r: string)
    requires LexLe(p, q) && p != q && (q == r || LexLe(q, r))
    ensures r != p
  {
    if r == p {
      LexAntisymmetric(p, q);
    }
  }

  /** After the run of locations of failure `i`, the rest belongs to later failures. */
  lemma {:induction false} ConsumedRun(locations: seq<Location>, low: nat, high: nat, failures: seq<PackageFailure>,
                                       i: nat)
    requires Sorted(locations, LocationLe) && Ordered(failures)
    requires i < |failures| && Consumed(locations, low, failures, i)
    requires low <= high <= |locations|
    requires forall k | low <= k < high :: locations[k].packagePath == failures[i].packagePath
    requires high < |locations| ==> locations[high].packagePath != failures[i].packagePath
    ensures Consumed(locations, high, failures, i + 1)
    ensures OwnedBy(locations, failures[i].packagePath) == locations[low..high]
  {
    var p := failures[i].packagePath;
    forall k | 0 <= k < low
      ensures locations[k].packagePath != p && FailsBetween(failures, 0, i + 1, locations[k].packagePath)
    {
    }
    forall k | low <= k < high ensures FailsBetween(failures, 0, i + 1, locations[k].packagePath) {
      assert failures[i].packagePath == locations[k].packagePath;
    }
    forall k | high <= k < |locations|
      ensures locations[k].packagePath != p && FailsBetween(failures, i + 1, |failures|, locations[k].packagePath)
    {
      assert FailsBetween(failures, i, |failures|, locations[high].packagePath);
      var g :| i <= g < |failures| && failures[g].packagePath == locations[high].packagePath;
      assert LexLe(p, failures[g].packagePath);
      if k > high {
        assert LocationLe(locations[high], locations[k]);
        StrictlyAfter(p, locations[high].packagePath, locations[k].packagePath);
      }
    }
    OwnedIsRun(locations, low, high, p);
  }

  /** No location is dropped by the merge: the sections hold exactly the kept locations, in order. */
  ghost function Sections(failures: seq<PackageFailure>, locations: seq<Location>): seq<Location> {
    if failures == [] then []
    else Sections(failures[..|failures| - 1], locations) + OwnedBy(locations, failures[|failures| - 1].packagePath)
  }

  lemma RunEnd(locations: seq<Location>, low: nat, p: string) returns (end: nat)
    requires low <= |locations|
    ensures low <= end <= |locations|
    ensures forall k | low <= k < end :: locations[k].packagePath == p
    ensures end < |locations| ==> locations[end].packagePath != p
    decreases |locations| - low
  {
    if low < |locations| && locations[low].packagePath == p {
      end := RunEnd(locations, low + 1, p);
    } else {
      end := low;
    }
  }

  lemma {:induction false} SectionsUpTo(failures: seq<PackageFailure>, locations: seq<Location>, i: nat)
    returns (at: nat)
    requires Sorted(locations, LocationLe) && Ordered(failures) && i <= |failures|
    requires forall l | l in locations :: l.packagePath in FailedPackages(failures)
    ensures Consumed(locations, at, failures, i) && Sections(failures[..i], locations) == locations[..at]
    decreases i
  {
    hide Sorted, Ordered, LocationLe, FailsBetween, OwnedBy;
    if i == 0 {
      at := 0;
      StartsUnconsumed(locations, failures);
    } else {
      var low := SectionsUpTo(failures, locations, i - 1);
      at := RunEnd(locations, low, failures[i - 1].packagePath);
      ConsumedRun(locations, low, at, failures, i - 1);
      assert failures[..i][..i - 1] == failures[..i - 1];
      assert locations[..at] == locations[..low] + locations[low..at];
    }
  }

  lemma {:induction false} NothingLeft(locations: seq<Location>, at: nat, failures: seq<PackageFailure>)
    requires Consumed(locations, at, failures, |failures|)
    ensures at == |locations|
  {
    hide FailsBetween;
    if at < |locations| {
      NoneFailAfterAll(failures, locations[at].packagePath);
    }
  }

  lemma NoneFailAfterAll(failures: seq<PackageFailure>, p: string)
    ensures !FailsBetween(failures, |failures|, |failures|, p)
  {
  }

  lemma SectionsHoldAll(failures: seq<PackageFailure>, locations: seq<Location>)
    requires Sorted(locations, LocationLe) && Ordered(failures)
    requires forall l | l in locations :: l.packagePath in FailedPackages(failures)
    ensures Sections(failures, locations) == locations
  {
    var at := SectionsUpTo(failures, locations, |failures|);
    assert failures[..|failures|] == failures;
    NothingLeft(locations, at, failures);
  }

  // ----- what the printing keeps

  lemma {:induction false} LocationsKeep(p: Progress, indent: string, locations: seq<Location>, maximum: nat)
    requires |p.text| <= maximum
    ensures var q := WithLocations(p, indent, locations, maximum);
      && |q.text| <= maximum && q.omittedPackages == p.omittedPackages
      && multiset(q.shown) <= multiset(p.shown) + multiset(locations)
  {
    if locations != [] {
      var front := locations[..|locations| - 1];
      LocationsKeep(p, indent, front, maximum);
      assert locations == front + [locations[|locations| - 1]];
    }
  }

  lemma {:induction false} SectionsKeep(p: Progress, failures: seq<PackageFailure>, locations: seq<Location>,
                                        naming: Naming, maximum: nat)
    requires |p.text| <= maximum
    ensures var q := WithSections(p, failures, locations, naming, maximum);
      && |q.text| <= maximum && q.omittedPackages <= p.omittedPackages + |failures|
      && multiset(q.shown) <= multiset(p.shown) + multiset(Sections(failures, locations))
  {
    if failures != [] {
      var last := failures[|failures| - 1];
      var front := failures[..|failures| - 1];
      SectionsKeep(p, front, locations, naming, maximum);
      var q := WithSections(p, front, locations, naming, maximum);
      var heading := Heading(last, naming);
      if |q.text| + |heading| <= maximum {
        LocationsKeep(q.(text := q.text + heading), "    ", OwnedBy(locations, last.packagePath), maximum);
      }
    }
  }

  lemma BodyKeeps(failures: seq<PackageFailure>, locations: seq<Location>, naming: Naming, limit: nat)
    requires Sorted(locations, LocationLe) && Ordered(failures)
    requires forall l | l in locations :: l.packagePath in FailedPackages(failures)
    ensures var q := Body(failures, locations, naming, limit);
      && |q.text| <= Maximum(limit, false) && q.omittedPackages <= |failures|
      && multiset(q.shown) <= multiset(locations) && |q.shown| <= |locations|
  {
    var maximum := Maximum(limit, false);
    SectionsHoldAll(failures, locations);
    if |failures| == 1 {
      LocationsKeep(Progress(Fitting("", "uncovered production blocks:\n", maximum), [], 0), "  ", locations, maximum);
    } else {
      SectionsKeep(Progress(Fitting("", "incomplete production coverage:\n", maximum), [], 0), failures, locations,
                   naming, maximum);
    }
    var shown := Body(failures, locations, naming, limit).shown;
    assert multiset(locations) == multiset(shown) + (multiset(locations) - multiset(shown));
    assert |multiset(shown)| == |shown| && |multiset(locations)| == |locations|;
  }

  lemma ShownWithin(blocks: map<string, Block>, order: seq<string>, failures: seq<PackageFailure>, limits: Limits,
                    naming: Naming)
    requires Enumerates(order, blocks.Keys) && Ordered(failures)
    ensures |BodyOf(blocks, order, failures, limits, naming).shown|
      <= |UncoveredBlocks(blocks, FailedPackages(failures))|
  {
    KeptCounted(blocks, order, FailedPackages(failures), naming, limits.blocks);
    BodyKeeps(failures, KeptIn(blocks, order, FailedPackages(failures), naming, limits.blocks), naming, limits.bytes);
  }

  lemma BlockFooterFits(omitted: nat)
    requires omitted < Power10(19)
    ensures |BlockFooter(omitted)| <= 50
  {
    hide Power10;
    DecimalLength(omitted, 19);
  }

  lemma PackageFooterFits(omitted: nat)
    requires omitted < Power10(19)
    ensures |PackageFooter(omitted)| <= 52
  {
    hide Power10;
    DecimalLength(omitted, 19);
  }

  /** The report never passes its byte limit; every block is printed or counted
      as omitted; and with a reserve to use, both counts are always printed. */
  lemma RenderedIsBounded(blocks: map<string, Block>, order: seq<string>, failures: seq<PackageFailure>, limits: Limits,
                          naming: Naming)
    requires Enumerates(order, blocks.Keys) && Ordered(failures)
    ensures |Rendered(blocks, order, failures, limits, naming)| <= limits.bytes
    ensures (limits.bytes >= FOOTER_RESERVE && |blocks| < Power10(19) && |failures| < Power10(19)
      && !(|failures| == 1 && failures[0].missing)) ==>
      var body := BodyOf(blocks, order, failures, limits, naming);
      var omitted := |UncoveredBlocks(blocks, FailedPackages(failures))| - |body.shown|;
      && omitted >= 0
      && Rendered(blocks, order, failures, limits, naming)
           == body.text + BlockFooter(omitted) + PackageFooter(body.omittedPackages)
  {
    hide Sorted, Ordered, LocationLe, KeptIn, WithLocations, WithSections, BlockFooter, PackageFooter, Power10, Body;
    hide FailedPackages;
    var failed := FailedPackages(failures);
    var kept := KeptIn(blocks, order, failed, naming, limits.blocks);
    KeptCounted(blocks, order, failed, naming, limits.blocks);
    BodyKeeps(failures, kept, naming, limits.bytes);
    ShownWithin(blocks, order, failures, limits, naming);
    var body := BodyOf(blocks, order, failures, limits, naming);
    if limits.bytes >= FOOTER_RESERVE && |blocks| < Power10(19) && |failures| < Power10(19) {
      SubsetSize(UncoveredBlocks(blocks, failed), blocks.Keys);
      BlockFooterFits(|UncoveredBlocks(blocks, failed)| - |body.shown|);
      PackageFooterFits(body.omittedPackages);
    }
  }

  lemma SubsetSize<T>(a: set<T>, b: set<T>)
    requires a <= b
    ensures |a| <= |b|
  {
    assert b == a + (b - a);
  }

  // ----- when there is room for everything

  ghost function LinesLength(indent: string, locations: seq<Location>): nat {
    if locations == [] then 0
    else LinesLength(indent, locations[..|locations| - 1]) + |LocationLine(indent, locations[|locations| - 1])|
  }

  ghost function SectionsLength(failures: seq<PackageFailure>, locations: seq<Location>, naming: Naming): nat {
    if failures == [] then 0
    else
      var last := failures[|failures| - 1];
      SectionsLength(failures[..|failures| - 1], locations, naming) + |Heading(last, naming)|
        + LinesLength("    ", OwnedBy(locations, last.packagePath))
  }

  lemma {:induction false} LocationsAllFit(p: Progress, indent: string, locations: seq<Location>, maximum: nat)
    requires |p.text| + LinesLength(indent, locations) <= maximum
    ensures var q := WithLocations(p, indent, locations, maximum);
      q.shown == p.shown + locations && |q.text| == |p.text| + LinesLength(indent, locations)
  {
    if locations != [] {
      LocationsAllFit(p, indent, locations[..|locations| - 1], maximum);
      assert locations == locations[..|locations| - 1] + [locations[|locations| - 1]];
    }
  }

  lemma {:induction false} SectionsAllFit(p: Progress, failures: seq<PackageFailure>, locations: seq<Location>,
                                          naming: Naming, maximum: nat)
    requires forall f | f in failures :: Caption(f, naming) != ""
    requires |p.text| + SectionsLength(failures, locations, naming) <= maximum
    ensures var q := WithSections(p, failures, locations, naming, maximum);
      && q.shown == p.shown + Sections(failures, locations) && q.omittedPackages == p.omittedPackages
      && |q.text| == |p.text| + SectionsLength(failures, locations, naming)
  {
    hide Heading, OwnedBy, LinesLength, WithSection, Caption;
    if failures != [] {
      var last := failures[|failures| - 1];
      var front := failures[..|failures| - 1];
      SectionsAllFit(p, front, locations, naming, maximum);
      var q := WithSections(p, front, locations, naming, maximum);
      var own := OwnedBy(locations, last.packagePath);
      SectionFits(q, last, own, naming, maximum);
      assert p.shown + Sections(front, locations) + own == p.shown + (Sections(front, locations) + own);
    }
  }

  lemma SectionFits(q: Progress, f: PackageFailure, own: seq<Location>, naming: Naming, maximum: nat)
    requires Caption(f, naming) != ""
    requires |q.text| + |Heading(f, naming)| + LinesLength("    ", own) <= maximum
    ensures var r := WithSection(q, f, own, naming, maximum);
      && r.shown == q.shown + own && r.omittedPackages == q.omittedPackages
      && |r.text| == |q.text| + |Heading(f, naming)| + LinesLength("    ", own)
  {
    hide Heading, Caption, LinesLength, WithLocations;
    var start := q.(text := q.text + Heading(f, naming));
    LocationsKeep(start, "    ", own, maximum);
    LocationsAllFit(start, "    ", own, maximum);
  }

  /** Nothing is left out that fits: with room for all lines and every package
      nameable, each kept location is printed, in order. */
  lemma AllPrintedWhenTheyFit(failures: seq<PackageFailure>, locations: seq<Location>, naming: Naming, limit: nat)
    requires Sorted(locations, LocationLe) && Ordered(failures) && |failures| > 1
    requires forall l | l in locations :: l.packagePath in FailedPackages(failures)
    requires forall f | f in failures :: Caption(f, naming) != ""
    requires |"incomplete production coverage:\n"| + SectionsLength(failures, locations, naming)
      <= Maximum(limit, false)
    ensures var q := Body(failures, locations, naming, limit); q.shown == locations && q.omittedPackages == 0
  {
    SectionsHoldAll(failures, locations);
    var title := "incomplete production coverage:\n";
    assert "" + title == title;
    assert [] + locations == locations;
    SectionsAllFit(Progress("incomplete production coverage:\n", [], 0), failures, locations, naming,
                   Maximum(limit, false));
  }

  // ----- the printing itself

  method PrintLocations(r: Report, indent: string, locations: seq<Location>, ghost p: Progress) returns (printed: nat)
    requires r.text == p.text
    modifies r
    ensures var q := WithLocations(p, indent, locations, Maximum(r.limit, false));
      r.text == q.text && printed == |q.shown| - |p.shown|
  {
    printed := 0;
    for i := 0 to |locations|
      invariant var q := WithLocations(p, indent, locations[..i], Maximum(r.limit, false));
        r.text == q.text && printed == |q.shown| - |p.shown|
    {
      assert locations[..i + 1][..i] == locations[..i];
      var written := r.Write(LocationLine(indent, locations[i]), false);
      if written {
        printed := printed + 1;
      }
    }
    assert locations[..|locations|] == locations;
  }

  /** The locations of one package, taken off the sorted list in turn. */
  method PrintRun(r: Report, locations: seq<Location>, start: nat, f: PackageFailure, admitted: bool, ghost p: Progress)
    returns (end: nat, printed: nat)
    requires start <= |locations| && r.text == p.text
    modifies r
    ensures start <= end <= |locations|
    ensures forall k | start <= k < end :: locations[k].packagePath == f.packagePath
    ensures end < |locations| ==> locations[end].packagePath != f.packagePath
    ensures var q := if admitted then WithLocations(p, "    ", locations[start..end], Maximum(r.limit, false)) else p;
      r.text == q.text && printed == |q.shown| - |p.shown|
  {
    hide LocationLine, Maximum;
    end, printed := start, 0;
    while end < |locations| && locations[end].packagePath == f.packagePath
      invariant start <= end <= |locations|
      invariant forall k | start <= k < end :: locations[k].packagePath == f.packagePath
      invariant var q := if admitted then WithLocations(p, "    ", locations[start..end], Maximum(r.limit, false))
        else p;
        r.text == q.text && printed == |q.shown| - |p.shown|
    {
      assert locations[start..end + 1][..end - start] == locations[start..end];
      if admitted {
        var written := r.Write(LocationLine("    ", locations[end]), false);
        if written {
          printed := printed + 1;
        }
      }
      end := end + 1;
    }
  }

  method PrintSections(r: Report, failures: seq<PackageFailure>, locations: seq<Location>, naming: Naming)
    returns (printed: nat, omittedPackages: nat)
    requires Sorted(locations, LocationLe) && Ordered(failures)
    requires forall l | l in locations :: l.packagePath in FailedPackages(failures)
    modifies r
    ensures var q := WithSections(Progress(old(r.text), [], 0), failures, locations, naming, Maximum(r.limit, false));
      r.text == q.text && printed == |q.shown| && omittedPackages == q.omittedPackages
  {
    hide Sorted, Ordered, LocationLe, Heading, Caption, FailedPackages, WithLocations, OwnedBy;
    ghost var start := Progress(r.text, [], 0);
    ghost var maximum := Maximum(r.limit, false);
    printed, omittedPackages := 0, 0;
    var at := 0;
    StartsUnconsumed(locations, failures);
    for i := 0 to |failures|
      invariant Consumed(locations, at, failures, i)
      invariant var q := WithSections(start, failures[..i], locations, naming, maximum);
        r.text == q.text && printed == |q.shown| && omittedPackages == q.omittedPackages
    {
      var f := failures[i];
      ghost var p := WithSections(start, failures[..i], locations, naming, maximum);
      assert failures[..i + 1][..i] == failures[..i];
      var admitted := Caption(f, naming) != "";
      if admitted {
        admitted := r.Write(Heading(f, naming), false);
      }
      if !admitted {
        omittedPackages := omittedPackages + 1;
      }
      var end, more := PrintRun(r, locations, at, f, admitted, p.(text := r.text));
      if admitted {
        LocationsKeep(p.(text := p.text + Heading(f, naming)), "    ", locations[at..end], maximum);
      }
      ConsumedRun(locations, at, end, failures, i);
      at, printed := end, printed + more;
    }
    assert failures[..|failures|] == failures;
  }

  lemma StartsUnconsumed(locations: seq<Location>, failures: seq<PackageFailure>)
    requires forall l | l in locations :: l.packagePath in FailedPackages(failures)
    ensures Consumed(locations, 0, failures, 0)
  {
    forall k | 0 <= k < |locations| ensures FailsBetween(failures, 0, |failures|, locations[k].packagePath) {
      assert locations[k] in locations;
      var f :| f in failures && f.packagePath == locations[k].packagePath;
      var j :| 0 <= j < |failures| && failures[j] == f;
    }
  }

  lemma EmptyFooters()
    ensures BlockFooter(0) == "" && PackageFooter(0) == ""
  {
  }

  method PrintFooters(r: Report, omitted: nat, omittedPackages: nat)
    requires |r.text| <= r.limit
    modifies r
    ensures r.text == Fitting(Fitting(old(r.text), BlockFooter(omitted), r.limit), PackageFooter(omittedPackages),
                              r.limit)
  {
    hide BlockFooter, PackageFooter;
    EmptyFooters();
    if omitted > 0 {
      var _ := r.Write(BlockFooter(omitted), true);
    }
    if omittedPackages > 0 {
      var _ := r.Write(PackageFooter(omittedPackages), true);
    }
  }

  /** The title, then the locations of a lone package or the sections of several. */
  method PrintBody(r: Report, failures: seq<PackageFailure>, locations: seq<Location>, naming: Naming)
    returns (printed: nat, omittedPackages: nat)
    requires Sorted(locations, LocationLe) && Ordered(failures) && r.text == ""
    requires forall l | l in locations :: l.packagePath in FailedPackages(failures)
    modifies r
    ensures var body := Body(failures, locations, naming, r.limit);
      r.text == body.text && printed == |body.shown| && omittedPackages == body.omittedPackages
  {
    hide Sorted, Ordered, LocationLe, WithLocations, WithSections, FailedPackages;
    omittedPackages := 0;
    if |failures| == 1 {
      var _ := r.Write("uncovered production blocks:\n", false);
      LocationsKeep(Progress(r.text, [], 0), "  ", locations, Maximum(r.limit, false));
      printed := PrintLocations(r, "  ", locations, Progress(r.text, [], 0));
    } else {
      var _ := r.Write("incomplete production coverage:\n", false);
      printed, omittedPackages := PrintSections(r, failures, locations, naming);
    }
  }

  method IncompleteReport(blocks: map<string, Block>, failures: seq<PackageFailure>, limits: Limits, naming: Naming)
    returns (report: string)
    requires Ordered(failures)
    ensures forall order | Enumerates(order, blocks.Keys) :: report == Rendered(blocks, order, failures, limits, naming)
  {
    hide Sorted, Ordered, LocationLe, UncoveredBlocks, KeptIn, NoDuplicates, Body, BlockFooter, PackageFooter;
    hide FailedPackages;
    if |failures| == 1 && failures[0].missing {
      return "";
    }
    var failed := FailedPackages(failures);
    var locations, uncovered := Collect(blocks, failed, naming, limits.blocks);
    ghost var order := Enumeration(blocks.Keys);
    KeptCounted(blocks, order, failed, naming, limits.blocks);
    ShownWithin(blocks, order, failures, limits, naming);
    BodyKeeps(failures, locations, naming, limits.bytes);
    var r := new Report(limits.bytes);
    var printed, omittedPackages := PrintBody(r, failures, locations, naming);
    PrintFooters(r, uncovered - printed, omittedPackages);
    report := r.text;
  }
}
