/** Which locations a coverage diagnostic can list, and what it looks like. */
module CoverageExamples {
  import opened Wrappers
  import opened Sorting
  import opened Text
  import opened CoverageBlocks
  import opened CoverageReport

  /** A block is counted as uncovered if its package failed, it has statements and
      none was executed; it is listed if its name can be shown in 160 bytes. */
  lemma ListedIsExact(blocks: map<string, Block>, failed: set<string>, naming: Naming, id: string, l: Location)
    requires id in blocks
    ensures id in UncoveredBlocks(blocks, failed) <==>
      blocks[id].packagePath in failed && blocks[id].statements > 0 && !blocks[id].covered
    ensures Candidate(blocks[id], id, failed, naming) == Some(l) <==>
      && id in UncoveredBlocks(blocks, failed) && naming.locate(id) == Some(l.location) && |l.location| < 161
      && l.packagePath == blocks[id].packagePath
  {
  }

  /** A package is named by its shown name if that has at most 160 bytes, and otherwise not at all. */
  lemma NamedIsExact(f: PackageFailure, naming: Naming)
    ensures Caption(f, naming) != "" <==> 0 < |naming.caption(f.packagePath)| < 161
    ensures Caption(f, naming) != "" ==> Caption(f, naming) == naming.caption(f.packagePath)
  {
  }

  const ID := "p/f.go:1.1,2.2"
  const LOCATION := "f.go:1.1,2.2"

  function OneBlock(): map<string, Block> {
    map[ID := Block("p", 1, false)]
  }

  /** Every block is shown alike, and packages by their own names, but for "r". */
  function Plainly(): Naming {
    Naming(_ => Some(LOCATION), (p: string) => if p == "r" then "" else p)
  }

  lemma OneLocation(failures: seq<PackageFailure>, limit: nat)
    requires PackageFailure("p", false) in failures
    ensures Enumerates([ID], OneBlock().Keys)
    ensures KeptIn(OneBlock(), [ID], FailedPackages(failures), Plainly(), limit) ==
      if limit == 0 then [] else [Location("p", LOCATION)]
    ensures UncoveredBlocks(OneBlock(), FailedPackages(failures)) == {ID}
  {
    var failed := FailedPackages(failures);
    var l := Location("p", LOCATION);
    assert "p" in failed && |LOCATION| == 12;
    assert Candidate(OneBlock()[ID], ID, failed, Plainly()) == Some(l);
    assert [ID][1..] == [];
    assert Candidates(OneBlock(), [ID], failed, Plainly()) == [l] + Candidates(OneBlock(), [], failed, Plainly());
    OneIsSorted(l);
  }

  lemma OneIsSorted(l: Location)
    ensures Sort([l], LocationLe) == [l]
  {
    SortPermutes([l], LocationLe);
    assert multiset(Sort([l], LocationLe)) == multiset{l};
    SingleBag(Sort([l], LocationLe), l);
  }

  lemma SingleBag(s: seq<Location>, l: Location)
    requires multiset(s) == multiset{l}
    ensures s == [l]
  {
    assert |s| == |multiset(s)| == 1;
    assert s[0] in multiset(s);
  }

  lemma OneLine(p: Progress, indent: string, l: Location, maximum: nat)
    ensures WithLocations(p, indent, [], maximum) == p
    ensures WithLocations(p, indent, [l], maximum) ==
      var line := indent + l.location + "\n";
      if |p.text| + |line| <= maximum then p.(text := p.text + line, shown := p.shown + [l]) else p
  {
    assert [l][..0] == [];
  }

  /** What is printed for the one block: the body, and how many locations are in it. */
  lemma RenderedFrom(failures: seq<PackageFailure>, limits: Limits, body: Progress)
    requires Ordered(failures) && PackageFailure("p", false) in failures
    requires body ==
      Body(failures, if limits.blocks == 0 then [] else [Location("p", LOCATION)], Plainly(), limits.bytes)
    ensures |body.shown| <= 1 && Enumerates([ID], OneBlock().Keys)
    ensures Rendered(OneBlock(), [ID], failures, limits, Plainly()) ==
      Fitting(Fitting(body.text, BlockFooter(1 - |body.shown|), limits.bytes), PackageFooter(body.omittedPackages),
              limits.bytes)
  {
    hide Body, Fitting, BlockFooter, PackageFooter, KeptIn;
    OneLocation(failures, limits.blocks);
    ShownWithin(OneBlock(), [ID], failures, limits, Plainly());
    assert |{ID}| == 1;
  }

  lemma FitsAtStart(text: string, maximum: nat)
    requires |text| <= maximum
    ensures Fitting("", text, maximum) == text
  {
    assert "" + text == text;
  }

  lemma FooterTexts()
    ensures BlockFooter(0) == "" && BlockFooter(1) == "  (" + "1" + " additional blocks omitted)\n"
    ensures PackageFooter(0) == "" && PackageFooter(1) == "  (" + "1" + " additional packages omitted)\n"
  {
    assert Decimal(1) == ['1'] == "1";
  }

  /** One package below exact coverage: its uncovered blocks are listed. */
  method OnePackage() returns (report: string)
    ensures report == "uncovered production blocks:\n" + ("  " + LOCATION + "\n")
  {
    hide Rendered, BlockFooter, PackageFooter;
    var failures := [PackageFailure("p", false)];
    report := IncompleteReport(OneBlock(), failures, Limits(512, 85_000), Plainly());
    FooterTexts();
    FitsAtStart("uncovered production blocks:\n", 84_872);
    OneLine(Progress("uncovered production blocks:\n", [], 0), "  ", Location("p", LOCATION), 84_872);
    var body := Body(failures, [Location("p", LOCATION)], Plainly(), 85_000);
    assert body == Progress("uncovered production blocks:\n" + ("  " + LOCATION + "\n"), [Location("p", LOCATION)], 0);
    RenderedFrom(failures, Limits(512, 85_000), body);
  }

  /** With an allowance of 160 bytes only 32 are open to lines: the heading and no block. */
  method LittleRoom() returns (report: string)
    ensures report == "uncovered production blocks:\n" + ("  (" + "1" + " additional blocks omitted)\n")
  {
    hide Rendered, BlockFooter, PackageFooter;
    var failures := [PackageFailure("p", false)];
    report := IncompleteReport(OneBlock(), failures, Limits(512, 160), Plainly());
    FooterTexts();
    FitsAtStart("uncovered production blocks:\n", 32);
    OneLine(Progress("uncovered production blocks:\n", [], 0), "  ", Location("p", LOCATION), 32);
    var body := Body(failures, [Location("p", LOCATION)], Plainly(), 160);
    assert body == Progress("uncovered production blocks:\n", [], 0);
    RenderedFrom(failures, Limits(512, 160), body);
  }

  /** Three packages: one with its block, one without any statement, and one that
      cannot be named. */
  method ThreePackages() returns (report: string)
    ensures report == "incomplete production coverage:\n"
      + ("  " + "p" + " is below exact 100% coverage\n") + ("    " + LOCATION + "\n")
      + ("  " + "q" + " missing executable coverage evidence\n")
      + ("  (" + "1" + " additional packages omitted)\n")
  {
    hide Rendered, BlockFooter, PackageFooter;
    var p, q, r := PackageFailure("p", false), PackageFailure("q", true), PackageFailure("r", true);
    var failures := [p, q, r];
    report := IncompleteReport(OneBlock(), failures, Limits(512, 85_000), Plainly());
    FooterTexts();
    ThreeSections(p, q, r);
    RenderedFrom(failures, Limits(512, 85_000), Body(failures, [Location("p", LOCATION)], Plainly(), 85_000));
  }

  lemma ThreeSections(p: PackageFailure, q: PackageFailure, r: PackageFailure)
    requires p == PackageFailure("p", false) && q == PackageFailure("q", true) && r == PackageFailure("r", true)
    ensures Body([p, q, r], [Location("p", LOCATION)], Plainly(), 85_000) ==
      Progress("incomplete production coverage:\n"
               + ("  " + "p" + " is below exact 100% coverage\n") + ("    " + LOCATION + "\n")
               + ("  " + "q" + " missing executable coverage evidence\n"), [Location("p", LOCATION)], 1)
  {
    hide OwnedBy, Heading;
    var l := Location("p", LOCATION);
    var start := Progress("incomplete production coverage:\n", [], 0);
    FitsAtStart("incomplete production coverage:\n", 84_872);
    assert [p, q, r][..2] == [p, q] && [p, q][..1] == [p] && [p][..0] == [];
    Owned(l);
    Headings(p, q, r);
    var one := start.(text := start.text + ("  " + "p" + " is below exact 100% coverage\n"));
    OneLine(one, "    ", l, 84_872);
    var two := Progress(one.text + ("    " + LOCATION + "\n"), [l], 0);
    assert WithSection(start, p, [l], Plainly(), 84_872) == two;
    assert WithSections(start, [p], [l], Plainly(), 84_872) == two;
    var three := two.(text := two.text + ("  " + "q" + " missing executable coverage evidence\n"));
    assert WithSection(two, q, [], Plainly(), 84_872) == three;
    assert WithSections(start, [p, q], [l], Plainly(), 84_872) == three;
    assert WithSection(three, r, [], Plainly(), 84_872) == three.(omittedPackages := 1);
  }

  lemma Owned(l: Location)
    requires l.packagePath == "p"
    ensures OwnedBy([l], "p") == [l] && OwnedBy([l], "q") == [] && OwnedBy([l], "r") == []
  {
    assert "p"[0] != "q"[0] && "p"[0] != "r"[0];
    assert [l][1..] == [];
    NoneOwned([l], "q");
    NoneOwned([l], "r");
  }

  lemma Headings(p: PackageFailure, q: PackageFailure, r: PackageFailure)
    requires p == PackageFailure("p", false) && q == PackageFailure("q", true) && r == PackageFailure("r", true)
    ensures Caption(p, Plainly()) == "p" && Caption(q, Plainly()) == "q" && Caption(r, Plainly()) == ""
    ensures Heading(p, Plainly()) == "  " + "p" + " is below exact 100% coverage\n"
    ensures Heading(q, Plainly()) == "  " + "q" + " missing executable coverage evidence\n"
  {
    assert "p"[0] != "r"[0] && "q"[0] != "r"[0];
  }
}
