/** Planning and applying coordinated tooling pins (internal/upgrade/upgrade.go). */
module Upgrade {
  import opened Wrappers
  import opened Pins
  import opened PinGrammar
  import opened FileSystem

  const MAXIMUM_FILE_SIZE: nat := 0x10_0000

  datatype Request = Request(version: string, workflowSHA: string, checksums: string)

  datatype Failure =
    | InvalidRequest
    | UnreadableConfiguration
    | UnreadableWorkflow
    | VersionNotUnique
    | DigestNotUnique
    | ReferenceNotUnique
    | InputNotUnique
    | CommitsDiffer

  predicate ValidRequest(r: Request) {
    Accepts(Version, r.version) && Accepts(Commit, r.workflowSHA) && Accepts(Digest, r.checksums)
  }

  // ----- text as lines

  /** The lines of a text: always at least one, none holding a line feed. */
  function Split(text: string): (lines: seq<string>)
    ensures lines != [] && forall l | l in lines :: '\n' !in l
  {
    if text == [] then [""]
    else if text[0] == '\n' then [""] + Split(text[1..])
    else
      var rest := Split(text[1..]);
      [[text[0]] + rest[0]] + rest[1..]
  }

  function Join(lines: seq<string>): string {
    if lines == [] then "" else if |lines| == 1 then lines[0] else lines[0] + "\n" + Join(lines[1..])
  }

  lemma {:induction false} JoinSplit(text: string)
    ensures Join(Split(text)) == text
  {
    if text != [] {
      JoinSplit(text[1..]);
      var rest := Split(text[1..]);
      if text[0] == '\n' {
        assert ([""] + rest)[1..] == rest;
      } else {
        assert ([[text[0]] + rest[0]] + rest[1..])[1..] == rest[1..];
      }
    }
  }

  lemma {:induction false} SplitLine(line: string, rest: string)
    requires '\n' !in line
    ensures Split(line) == [line]
    ensures Split(line + "\n" + rest) == [line] + Split(rest)
    decreases |line|
  {
    var all := line + "\n" + rest;
    if line == "" {
      assert all[1..] == rest;
    } else {
      SplitLine(line[1..], rest);
      assert all[1..] == line[1..] + "\n" + rest;
      assert line == [line[0]] + line[1..];
    }
  }

  lemma {:induction false} SplitJoin(lines: seq<string>)
    requires lines != [] && forall l | l in lines :: '\n' !in l
    ensures Split(Join(lines)) == lines
  {
    if |lines| == 1 {
      SplitLine(lines[0], "");
    } else {
      SplitJoin(lines[1..]);
      SplitLine(lines[0], Join(lines[1..]));
      assert lines == [lines[0]] + lines[1..];
    }
  }

  // ----- rewriting

  const NEW_DIGEST := "tool_checksums_sha256: "

  function RewriteConfigurationLines(lines: seq<string>, r: Request): Result<seq<string>, Failure> {
    if |Values(CONFIG_VERSION, lines)| != 1 then Err(VersionNotUnique)
    else
      var updated := Replace(CONFIG_VERSION, lines, r.version);
      match |Values(CONFIG_DIGEST, updated)|
      case 0 => Ok(InsertAfter(CONFIG_VERSION, updated, NEW_DIGEST + r.checksums))
      case 1 => Ok(Replace(CONFIG_DIGEST, updated, r.checksums))
      case _ => Err(DigestNotUnique)
  }

  function RewriteWorkflowLines(lines: seq<string>, r: Request): Result<seq<string>, Failure> {
    if |Values(WORKFLOW_USE, lines)| != 1 then Err(ReferenceNotUnique)
    else if |Values(WORKFLOW_INPUT, lines)| != 1 then Err(InputNotUnique)
    else if Values(WORKFLOW_USE, lines)[0] != Values(WORKFLOW_INPUT, lines)[0] then Err(CommitsDiffer)
    else
      var updated := Replace(WORKFLOW_USE, lines, r.workflowSHA + (" # " + r.version));
      Ok(Replace(WORKFLOW_INPUT, updated, r.workflowSHA))
  }

  /** What goes into the pins of a valid request is recognised again. */
  lemma RequestFits(r: Request)
    requires ValidRequest(r)
    ensures Fits(CONFIG_VERSION, r.version, "") && Fits(CONFIG_DIGEST, r.checksums, "")
    ensures Fits(WORKFLOW_USE, r.workflowSHA, " # " + r.version) && Fits(WORKFLOW_INPUT, r.workflowSHA, "")
    ensures r.version + "" == r.version && r.checksums + "" == r.checksums && r.workflowSHA + "" == r.workflowSHA
  {
    hide Accepts;
    ValueIsWord(Version, r.version);
    CommentIsTail(r.version);
  }

  lemma CommentIsTail(version: string)
    requires Solid(version)
    ensures Tail(WORKFLOW_USE, " # " + version) && Blank((" # " + version)[0])
  {
    var tail := " # " + version;
    assert tail[0] == ' ' && tail[1] == '#';
    BlankRunIs(tail, 1);
    forall c | c in tail ensures c != '\r' {
    }
  }

  lemma NewDigestMatches(sum: string)
    requires Accepts(Digest, sum)
    ensures var line := NEW_DIGEST + sum;
      Matches(CONFIG_DIGEST, line) && Value(CONFIG_DIGEST, line) == sum
    ensures forall next :: Rewritten(CONFIG_DIGEST, NEW_DIGEST + sum, next) == NEW_DIGEST + next
  {
    hide Accepts;
    var line := NEW_DIGEST + sum;
    var key := "tool_checksums_sha256:";
    assert NEW_DIGEST == key + " ";
    ValueIsWord(Digest, sum);
    FirstOfSolid(sum);
    assert key <= line && line[0..] == line;
    assert line[|key|..] == " " + sum;
    BlankRunIs(" " + sum, 1);
    assert line[|key| + 1..] == sum && line[..|key| + 1] == NEW_DIGEST;
    assert "" <= line[|key| + 1..];
    assert ValueStart(CONFIG_DIGEST, line) == Some(|key| + 1);
    assert sum + "" == sum;
    WordEnds(sum, "");
    assert line[|line|..] == "";
  }

  /** Rewriting succeeds exactly on one version line and at most one digest line. */
  lemma ConfigurationAdmitted(lines: seq<string>, r: Request)
    requires ValidRequest(r)
    ensures RewriteConfigurationLines(lines, r).Ok? <==>
      && (exists version :: Only(CONFIG_VERSION, lines, version))
      && (NoPin(CONFIG_DIGEST, lines) || exists digest :: Only(CONFIG_DIGEST, lines, digest))
  {
    hide Only, NoPin;
    RequestFits(r);
    PinsAreApart();
    ThePins();
    ReplaceKeepsOther(CONFIG_VERSION, CONFIG_DIGEST, lines, r.version, "");
    ValuesAreMatches(CONFIG_VERSION, lines);
    ValuesAreMatches(CONFIG_DIGEST, lines);
    OneOrNone(Values(CONFIG_VERSION, lines));
    OneOrNone(Values(CONFIG_DIGEST, lines));
  }

  lemma OneOrNone(values: seq<string>)
    ensures |values| == 1 <==> exists value :: values == [value]
  {
    if |values| == 1 {
      assert values == [values[0]];
    }
  }

  /** And that of a workflow exactly on one use and one input of the same commit. */
  lemma WorkflowAdmitted(lines: seq<string>, r: Request)
    ensures RewriteWorkflowLines(lines, r).Ok? <==>
      exists commit :: Only(WORKFLOW_USE, lines, commit) && Only(WORKFLOW_INPUT, lines, commit)
  {
    hide Only, Replace;
    ThePins();
    var uses, inputs := Values(WORKFLOW_USE, lines), Values(WORKFLOW_INPUT, lines);
    ValuesAreMatches(WORKFLOW_USE, lines);
    ValuesAreMatches(WORKFLOW_INPUT, lines);
    OneOrNone(uses);
    OneOrNone(inputs);
    if RewriteWorkflowLines(lines, r).Ok? {
      assert uses == [uses[0]] && inputs == [uses[0]];
    }
  }

  lemma {:induction false} ReplacedLines(p: Pin, lines: seq<string>, text: string)
    ensures |Replace(p, lines, text)| == |lines|
    ensures forall i | 0 <= i < |lines| :: Replace(p, lines, text)[i] == Rewritten(p, lines[i], text)
  {
    hide Rewritten;
    if lines != [] {
      ReplacedLines(p, lines[1..], text);
    }
  }

  /** The rewritten line of a pin, in its parts; any other line is as it was. */
  ghost predicate PinnedTo(p: Pin, line: string, next: string, text: string) {
    && (forall before, between, value, ending | PinLine(p, line, before, between, value, ending) ::
          next == before + (p.key + (between + (p.path + text))))
    && ((forall value :: !IsPin(p, line, value)) ==> next == line)
  }

  lemma RewrittenIsPinned(p: Pin, line: string, text: string)
    requires WellShaped(p)
    ensures PinnedTo(p, line, Rewritten(p, line, text), text)
  {
    hide PinLine, Matches, Rewritten;
    forall before, between, value, ending | PinLine(p, line, before, between, value, ending)
      ensures Rewritten(p, line, text) == before + (p.key + (between + (p.path + text)))
    {
      RewrittenParts(p, line, before, between, value, ending, text);
    }
    if forall value :: !IsPin(p, line, value) {
      UnmatchedStays(p, line, text);
    }
  }

  lemma UnmatchedStays(p: Pin, line: string, text: string)
    requires WellShaped(p) && forall value :: !IsPin(p, line, value)
    ensures Rewritten(p, line, text) == line
  {
    hide IsPin;
    if Matches(p, line) {
      MatchIsPin(p, line);
    }
  }

  lemma MatchIsPin(p: Pin, line: string)
    requires WellShaped(p) && Matches(p, line)
    ensures IsPin(p, line, Value(p, line))
  {
    hide IsPin;
    PinIsMatch(p, line);
  }

  /** Line by line: the use is given the commit and, as a comment, the version; the
      input is given the commit; all else is as it was. */
  lemma WorkflowLineByLine(lines: seq<string>, r: Request, i: nat)
    requires ValidRequest(r) && RewriteWorkflowLines(lines, r).Ok? && i < |lines|
    ensures var next := RewriteWorkflowLines(lines, r).value;
      && |next| == |lines|
      && if forall commit :: !IsPin(WORKFLOW_USE, lines[i], commit)
         then PinnedTo(WORKFLOW_INPUT, lines[i], next[i], r.workflowSHA)
         else PinnedTo(WORKFLOW_USE, lines[i], next[i], r.workflowSHA + (" # " + r.version))
  {
    hide Rewritten, IsPin, PinnedTo, Fits, Apart, Matches;
    ThePins();
    PinsAreApart();
    RequestFits(r);
    var text := r.workflowSHA + (" # " + r.version);
    var updated := Replace(WORKFLOW_USE, lines, text);
    ReplacedLines(WORKFLOW_USE, lines, text);
    ReplacedLines(WORKFLOW_INPUT, updated, r.workflowSHA);
    PinIsMatch(WORKFLOW_USE, lines[i]);
    if forall commit :: !IsPin(WORKFLOW_USE, lines[i], commit) {
      UnmatchedStays(WORKFLOW_USE, lines[i], text);
      RewrittenIsPinned(WORKFLOW_INPUT, lines[i], r.workflowSHA);
    } else {
      RewrittenStaysApart(WORKFLOW_USE, WORKFLOW_INPUT, lines[i], r.workflowSHA, " # " + r.version);
      RewrittenIsPinned(WORKFLOW_USE, lines[i], text);
      OtherStays(WORKFLOW_INPUT, updated[i], r.workflowSHA);
    }
  }

  lemma OtherStays(p: Pin, line: string, text: string)
    requires !Matches(p, line)
    ensures Rewritten(p, line, text) == line
  {
  }

  /** Line by line: with no digest line, the version line is given the version, and a
      line with the digest is put right after it. */
  lemma DigestInserted(lines: seq<string>, r: Request, at: nat, version: string, i: nat)
    requires ValidRequest(r) && RewriteConfigurationLines(lines, r).Ok? && i < |lines|
    requires at < |lines| && IsPin(CONFIG_VERSION, lines[at], version) && NoPin(CONFIG_DIGEST, lines)
    ensures var next := RewriteConfigurationLines(lines, r).value;
      && |next| == |lines| + 1 && next[at + 1] == "tool_checksums_sha256: " + r.checksums
      && PinnedTo(CONFIG_VERSION, lines[i], next[if i <= at then i else i + 1], r.version)
  {
    hide Rewritten, IsPin, PinnedTo, Fits, Apart, Matches, InsertAfter, NoPin, Values;
    ThePins();
    PinsAreApart();
    RequestFits(r);
    var updated := Replace(CONFIG_VERSION, lines, r.version);
    ReplacedLines(CONFIG_VERSION, lines, r.version);
    ReplaceKeepsOther(CONFIG_VERSION, CONFIG_DIGEST, lines, r.version, "");
    ValuesAreMatches(CONFIG_DIGEST, lines);
    PinIsMatch(CONFIG_VERSION, lines[at]);
    RewrittenIsPinned(CONFIG_VERSION, lines[i], r.version);
    UpdatedMatches(CONFIG_VERSION, lines, r.version, at);
    InsertedAt(CONFIG_VERSION, updated, NEW_DIGEST + r.checksums, at);
    InsertedPlaces(updated, NEW_DIGEST + r.checksums, at, i);
    assert Rewritten(CONFIG_VERSION, lines[i], r.version) == updated[i];
    hide Replace;
  }

  lemma InsertedPlaces(lines: seq<string>, line: string, at: nat, i: nat)
    requires at < |lines| && i < |lines|
    ensures var next := lines[..at + 1] + [line] + lines[at + 1..];
      |next| == |lines| + 1 && next[at + 1] == line && next[if i <= at then i else i + 1] == lines[i]
  {
  }

  /** With a digest line, that line is given the digest. */
  lemma DigestReplaced(lines: seq<string>, r: Request, at: nat, version: string, i: nat)
    requires ValidRequest(r) && RewriteConfigurationLines(lines, r).Ok? && i < |lines|
    requires at < |lines| && IsPin(CONFIG_VERSION, lines[at], version) && !NoPin(CONFIG_DIGEST, lines)
    ensures var next := RewriteConfigurationLines(lines, r).value;
      && |next| == |lines|
      && if i == at then PinnedTo(CONFIG_VERSION, lines[i], next[i], r.version)
         else PinnedTo(CONFIG_DIGEST, lines[i], next[i], r.checksums)
  {
    hide Rewritten, IsPin, PinnedTo, Fits, Apart, Matches, NoPin, Values;
    ThePins();
    PinsAreApart();
    RequestFits(r);
    var updated := Replace(CONFIG_VERSION, lines, r.version);
    ReplacedLines(CONFIG_VERSION, lines, r.version);
    ReplaceKeepsOther(CONFIG_VERSION, CONFIG_DIGEST, lines, r.version, "");
    ValuesAreMatches(CONFIG_DIGEST, lines);
    PinIsMatch(CONFIG_VERSION, lines[at]);
    ReplacedLines(CONFIG_DIGEST, updated, r.checksums);
    if i == at {
      assert r.version + "" == r.version;
      RewrittenStaysApart(CONFIG_VERSION, CONFIG_DIGEST, lines[i], r.version, "");
      OtherStays(CONFIG_DIGEST, updated[i], r.checksums);
      RewrittenIsPinned(CONFIG_VERSION, lines[i], r.version);
    } else {
      OnlyAt(CONFIG_VERSION, lines, at, i);
      OtherStays(CONFIG_VERSION, lines[i], r.version);
      RewrittenIsPinned(CONFIG_DIGEST, lines[i], r.checksums);
    }
  }

  /** With one value there is one matching line. */
  lemma {:induction false} OnlyAt(p: Pin, lines: seq<string>, at: nat, i: nat)
    requires |Values(p, lines)| == 1 && at < |lines| && Matches(p, lines[at]) && i < |lines| && i != at
    ensures !Matches(p, lines[i])
  {
    hide Matches, Value;
    if at == 0 {
      NoValues(p, lines[1..], i - 1);
    } else if i == 0 {
      if Matches(p, lines[0]) {
        NoValues(p, lines[1..], at - 1);
      }
    } else {
      if Matches(p, lines[0]) {
        NoValues(p, lines[1..], at - 1);
      }
      OnlyAt(p, lines[1..], at - 1, i - 1);
    }
  }

  lemma {:induction false} NoValues(p: Pin, lines: seq<string>, i: nat)
    requires |Values(p, lines)| == 0 && i < |lines|
    ensures !Matches(p, lines[i])
  {
    hide Matches, Value;
    if i > 0 {
      NoValues(p, lines[1..], i - 1);
    }
  }

  /** After replacing, the same line matches and no other does. */
  lemma UpdatedMatches(p: Pin, lines: seq<string>, text: string, at: nat)
    requires WellShaped(p) && Fits(p, text, "") && |Values(p, lines)| == 1 && at < |lines| && Matches(p, lines[at])
    ensures |Replace(p, lines, text)| == |lines| && Matches(p, Replace(p, lines, text)[at])
    ensures forall j | 0 <= j < at :: !Matches(p, Replace(p, lines, text)[j])
  {
    hide Matches, Value, Rewritten;
    ReplacedLines(p, lines, text);
    assert text + "" == text;
    RewrittenMatches(p, lines[at], text, "");
    forall j | 0 <= j < at ensures !Matches(p, Replace(p, lines, text)[j]) {
      OnlyAt(p, lines, at, j);
      OtherStays(p, lines[j], text);
    }
  }

  lemma {:induction false} InsertedAt(p: Pin, lines: seq<string>, line: string, at: nat)
    requires at < |lines| && Matches(p, lines[at]) && forall j | 0 <= j < at :: !Matches(p, lines[j])
    ensures InsertAfter(p, lines, line) == lines[..at + 1] + [line] + lines[at + 1..]
  {
    hide Matches;
    if at > 0 {
      InsertedAt(p, lines[1..], line, at - 1);
    }
  }

  /** Afterwards both pins are the requested ones, and every other line is as it was. */
  lemma ConfigurationPinned(lines: seq<string>, r: Request)
    requires ValidRequest(r) && RewriteConfigurationLines(lines, r).Ok?
    ensures var next := RewriteConfigurationLines(lines, r).value;
      && Values(CONFIG_VERSION, next) == [r.version] && Values(CONFIG_DIGEST, next) == [r.checksums]
      && Others(CONFIG_VERSION, CONFIG_DIGEST, next) == Others(CONFIG_VERSION, CONFIG_DIGEST, lines)
  {
    hide Fits, Apart, Matches, Value, Accepts;
    RequestFits(r);
    PinsAreApart();
    ApartIsShaped(CONFIG_VERSION, CONFIG_DIGEST);
    var updated := Replace(CONFIG_VERSION, lines, r.version);
    ReplaceKeepsOther(CONFIG_VERSION, CONFIG_DIGEST, lines, r.version, "");
    ReplacedValues(CONFIG_VERSION, lines, r.version, "");
    assert Repeat(r.version, 1) == [r.version] && Repeat(r.checksums, 1) == [r.checksums];
    if |Values(CONFIG_DIGEST, updated)| == 0 {
      NewDigestMatches(r.checksums);
      InsertedValues(CONFIG_VERSION, CONFIG_DIGEST, updated, NEW_DIGEST + r.checksums);
    } else {
      ReplaceKeepsOther(CONFIG_DIGEST, CONFIG_VERSION, updated, r.checksums, "");
      ReplacedValues(CONFIG_DIGEST, updated, r.checksums, "");
    }
  }

  /** The last request wins: an earlier one leaves no trace, and repeating one changes nothing. */
  lemma ConfigurationLastWins(lines: seq<string>, a: Request, b: Request)
    requires ValidRequest(a) && ValidRequest(b) && RewriteConfigurationLines(lines, a).Ok?
    ensures RewriteConfigurationLines(RewriteConfigurationLines(lines, a).value, b)
      == RewriteConfigurationLines(lines, b)
  {
    hide Fits, Apart, Matches, Value, Accepts, Rewritten, InsertAfter;
    RequestFits(a);
    RequestFits(b);
    PinsAreApart();
    ApartIsShaped(CONFIG_VERSION, CONFIG_DIGEST);
    ConfigurationPinned(lines, a);
    ReplaceKeepsOther(CONFIG_VERSION, CONFIG_DIGEST, lines, a.version, "");
    ReplaceKeepsOther(CONFIG_VERSION, CONFIG_DIGEST, lines, b.version, "");
    ReplaceTwice(CONFIG_VERSION, lines, a.version, "", b.version);
    var updated := Replace(CONFIG_VERSION, lines, a.version);
    var next := RewriteConfigurationLines(lines, a).value;
    ReplaceKeepsOther(CONFIG_VERSION, CONFIG_DIGEST, next, b.version, "");
    if |Values(CONFIG_DIGEST, updated)| == 0 {
      LastWinsInserting(lines, updated, a, b);
    } else {
      LastWinsReplacing(updated, a, b);
    }
  }

  lemma LastWinsInserting(lines: seq<string>, updated: seq<string>, a: Request, b: Request)
    requires ValidRequest(a) && ValidRequest(b) && Values(CONFIG_DIGEST, updated) == [] == Values(CONFIG_DIGEST, lines)
    requires Replace(CONFIG_VERSION, updated, b.version) == Replace(CONFIG_VERSION, lines, b.version)
    ensures Replace(CONFIG_DIGEST,
                    Replace(CONFIG_VERSION, InsertAfter(CONFIG_VERSION, updated, NEW_DIGEST + a.checksums), b.version),
                    b.checksums)
      == InsertAfter(CONFIG_VERSION, Replace(CONFIG_VERSION, lines, b.version), NEW_DIGEST + b.checksums)
  {
    hide Fits, Apart, Matches, Value, Accepts, Rewritten, InsertAfter;
    RequestFits(b);
    PinsAreApart();
    NewDigestMatches(a.checksums);
    var line := NEW_DIGEST + a.checksums;
    ReplaceInserted(CONFIG_VERSION, CONFIG_DIGEST, updated, line, b.version, "", "");
    ReplaceKeepsOther(CONFIG_VERSION, CONFIG_DIGEST, updated, b.version, "");
    ReplaceInserted(CONFIG_VERSION, CONFIG_DIGEST, Replace(CONFIG_VERSION, updated, b.version), line, b.version, "",
                    b.checksums);
  }

  lemma LastWinsReplacing(updated: seq<string>, a: Request, b: Request)
    requires ValidRequest(a) && ValidRequest(b)
    ensures Replace(CONFIG_DIGEST, Replace(CONFIG_VERSION, Replace(CONFIG_DIGEST, updated, a.checksums), b.version),
                    b.checksums)
      == Replace(CONFIG_DIGEST, Replace(CONFIG_VERSION, updated, b.version), b.checksums)
  {
    hide Fits, Apart, Matches, Accepts, Rewritten;
    RequestFits(a);
    RequestFits(b);
    PinsAreApart();
    ApartIsShaped(CONFIG_DIGEST, CONFIG_VERSION);
    ReplacesCommute(CONFIG_VERSION, CONFIG_DIGEST, updated, b.version, "", a.checksums, "");
    ReplaceTwice(CONFIG_DIGEST, Replace(CONFIG_VERSION, updated, b.version), a.checksums, "", b.checksums);
  }

  /** Afterwards both commits are the requested one, and every other line is as it was. */
  lemma WorkflowPinned(lines: seq<string>, r: Request)
    requires ValidRequest(r) && RewriteWorkflowLines(lines, r).Ok?
    ensures var next := RewriteWorkflowLines(lines, r).value;
      && Values(WORKFLOW_USE, next) == [r.workflowSHA] && Values(WORKFLOW_INPUT, next) == [r.workflowSHA]
      && Others(WORKFLOW_USE, WORKFLOW_INPUT, next) == Others(WORKFLOW_USE, WORKFLOW_INPUT, lines)
  {
    hide Fits, Apart, Matches, Value, Accepts;
    RequestFits(r);
    PinsAreApart();
    ApartIsShaped(WORKFLOW_USE, WORKFLOW_INPUT);
    var updated := Replace(WORKFLOW_USE, lines, r.workflowSHA + (" # " + r.version));
    ReplaceKeepsOther(WORKFLOW_USE, WORKFLOW_INPUT, lines, r.workflowSHA, " # " + r.version);
    ReplacedValues(WORKFLOW_USE, lines, r.workflowSHA, " # " + r.version);
    ReplaceKeepsOther(WORKFLOW_INPUT, WORKFLOW_USE, updated, r.workflowSHA, "");
    ReplacedValues(WORKFLOW_INPUT, updated, r.workflowSHA, "");
    assert Repeat(r.workflowSHA, 1) == [r.workflowSHA];
  }

  lemma WorkflowLastWins(lines: seq<string>, a: Request, b: Request)
    requires ValidRequest(a) && ValidRequest(b) && RewriteWorkflowLines(lines, a).Ok?
    ensures RewriteWorkflowLines(RewriteWorkflowLines(lines, a).value, b) == RewriteWorkflowLines(lines, b)
  {
    hide Fits, Apart, Matches, Value, Accepts, Rewritten;
    RequestFits(a);
    RequestFits(b);
    PinsAreApart();
    ApartIsShaped(WORKFLOW_USE, WORKFLOW_INPUT);
    WorkflowPinned(lines, a);
    var ta, tb := " # " + a.version, " # " + b.version;
    var updated := Replace(WORKFLOW_USE, lines, a.workflowSHA + ta);
    ReplacesCommute(WORKFLOW_USE, WORKFLOW_INPUT, updated, b.workflowSHA, tb, a.workflowSHA, "");
    ReplaceTwice(WORKFLOW_USE, lines, a.workflowSHA, ta, b.workflowSHA + tb);
    ReplaceTwice(WORKFLOW_INPUT, Replace(WORKFLOW_USE, lines, b.workflowSHA + tb), a.workflowSHA, "", b.workflowSHA);
  }

  // ----- whole files

  function RewriteConfiguration(content: string, r: Request): Result<string, Failure> {
    match RewriteConfigurationLines(Split(content), r)
    case Ok(lines) => Ok(Join(lines))
    case Err(e) => Err(e)
  }

  function RewriteWorkflow(content: string, r: Request): Result<string, Failure> {
    match RewriteWorkflowLines(Split(content), r)
    case Ok(lines) => Ok(Join(lines))
    case Err(e) => Err(e)
  }

  ghost predicate Lines(lines: seq<string>) {
    lines != [] && forall l | l in lines :: '\n' !in l
  }

  lemma RewrittenLine(p: Pin, line: string, text: string)
    requires '\n' !in line && '\n' !in text
    ensures '\n' !in Rewritten(p, line, text)
  {
    hide Matches, ValueStart;
    var next := Rewritten(p, line, text);
    if Matches(p, line) {
      assert ValueStart(p, line).Some? by { MatchStarts(p, line); }
      var start := ValueStart(p, line).value;
      assert next == line[..start] + text;
    }
  }

  lemma MatchStarts(p: Pin, line: string)
    requires Matches(p, line)
    ensures ValueStart(p, line).Some?
  {
  }

  lemma {:induction false} ReplaceLines(p: Pin, lines: seq<string>, text: string)
    requires Lines(lines) && '\n' !in text
    ensures Lines(Replace(p, lines, text))
  {
    hide Matches;
    RewrittenLine(p, lines[0], text);
    if |lines| > 1 {
      ReplaceLines(p, lines[1..], text);
    } else {
      assert lines[1..] == [];
    }
  }

  lemma {:induction false} InsertLines(p: Pin, lines: seq<string>, line: string)
    requires Lines(lines) && '\n' !in line
    ensures Lines(InsertAfter(p, lines, line))
  {
    hide Matches;
    if |lines| > 1 {
      InsertLines(p, lines[1..], line);
    }
  }

  lemma RequestIsSolid(r: Request)
    requires ValidRequest(r)
    ensures '\n' !in r.version && '\n' !in r.workflowSHA && '\n' !in r.checksums
    ensures '\n' !in NEW_DIGEST + r.checksums && '\n' !in r.workflowSHA + (" # " + r.version)
  {
    hide Accepts;
    ValueIsWord(Version, r.version);
    ValueIsWord(Commit, r.workflowSHA);
    ValueIsWord(Digest, r.checksums);
  }

  lemma ConfigurationLines(content: string, r: Request)
    requires ValidRequest(r) && RewriteConfiguration(content, r).Ok?
    ensures Split(RewriteConfiguration(content, r).value) == RewriteConfigurationLines(Split(content), r).value
  {
    hide Lines;
    var lines := Split(content);
    assert Lines(lines) by { SplitIsLines(content); }
    RequestIsSolid(r);
    ReplaceLines(CONFIG_VERSION, lines, r.version);
    var updated := Replace(CONFIG_VERSION, lines, r.version);
    InsertLines(CONFIG_VERSION, updated, NEW_DIGEST + r.checksums);
    ReplaceLines(CONFIG_DIGEST, updated, r.checksums);
    JoinedLines(RewriteConfigurationLines(lines, r).value);
  }

  lemma SplitIsLines(content: string)
    ensures Lines(Split(content))
  {
  }

  lemma JoinedLines(lines: seq<string>)
    requires Lines(lines)
    ensures Split(Join(lines)) == lines
  {
    SplitJoin(lines);
  }

  lemma WorkflowLines(content: string, r: Request)
    requires ValidRequest(r) && RewriteWorkflow(content, r).Ok?
    ensures Split(RewriteWorkflow(content, r).value) == RewriteWorkflowLines(Split(content), r).value
  {
    hide Lines;
    var lines := Split(content);
    assert Lines(lines) by { SplitIsLines(content); }
    RequestIsSolid(r);
    ReplaceLines(WORKFLOW_USE, lines, r.workflowSHA + (" # " + r.version));
    ReplaceLines(WORKFLOW_INPUT, Replace(WORKFLOW_USE, lines, r.workflowSHA + (" # " + r.version)), r.workflowSHA);
    JoinedLines(RewriteWorkflowLines(lines, r).value);
  }

  /** Both rewrites, on the bytes of a file: the last request wins. */
  lemma LastRequestWins(content: string, a: Request, b: Request)
    requires ValidRequest(a) && ValidRequest(b)
    ensures RewriteConfiguration(content, a).Ok? ==>
      RewriteConfiguration(RewriteConfiguration(content, a).value, b) == RewriteConfiguration(content, b)
    ensures RewriteWorkflow(content, a).Ok? ==>
      RewriteWorkflow(RewriteWorkflow(content, a).value, b) == RewriteWorkflow(content, b)
  {
    hide RewriteConfigurationLines, RewriteWorkflowLines, ValidRequest, Split, Join;
    if RewriteConfiguration(content, a).Ok? {
      ConfigurationLines(content, a);
      ConfigurationLastWins(Split(content), a, b);
    }
    if RewriteWorkflow(content, a).Ok? {
      WorkflowLines(content, a);
      WorkflowLastWins(Split(content), a, b);
    }
  }

  // ----- the plan

  datatype Plan = Plan(request: Request, configuration: string, workflow: string, oldConfiguration: string,
                       oldWorkflow: string) {
    predicate ConfigurationChanged() { configuration != oldConfiguration }
    predicate WorkflowChanged() { workflow != oldWorkflow }
    predicate Changed() { ConfigurationChanged() || WorkflowChanged() }
  }

  const CONFIGURATION := Artifact(".golib.yaml")
  const WORKFLOW := Artifact(".github/workflows/ci.yml")

  /** A regular file within the size limit, or nothing. */
  function ReadFile(disk: Disk, path: Path): Option<string> {
    if path in disk && disk[path].Regular? && |disk[path].bytes| <= MAXIMUM_FILE_SIZE then Some(disk[path].bytes)
    else None
  }

  function BuildPlan(disk: Disk, r: Request): Result<Plan, Failure> {
    if !ValidRequest(r) then Err(InvalidRequest)
    else match (ReadFile(disk, CONFIGURATION), ReadFile(disk, WORKFLOW))
      case (None, _) => Err(UnreadableConfiguration)
      case (_, None) => Err(UnreadableWorkflow)
      case (Some(configuration), Some(workflow)) =>
        match (RewriteConfiguration(configuration, r), RewriteWorkflow(workflow, r))
        case (Err(e), _) => Err(e)
        case (_, Err(e)) => Err(e)
        case (Ok(c), Ok(w)) => Ok(Plan(r, c, w, configuration, workflow))
  }

  ghost function Updated(disk: Disk, plan: Plan): Disk {
    disk[CONFIGURATION := Regular(plan.configuration)][WORKFLOW := Regular(plan.workflow)]
  }

  /** Once a plan is on disk the same request plans no change: exactly when the
      updated files, which may have grown, still fit the limit for reading them. */
  lemma ReplanningChangesNothing(disk: Disk, r: Request)
    requires BuildPlan(disk, r).Ok?
    ensures var plan := BuildPlan(disk, r).value; var again := BuildPlan(Updated(disk, plan), r);
      && (again.Ok? <==> |plan.configuration| <= MAXIMUM_FILE_SIZE && |plan.workflow| <= MAXIMUM_FILE_SIZE)
      && (again.Ok? ==> !again.value.Changed())
  {
    hide RewriteConfiguration, RewriteWorkflow, ValidRequest;
    var plan := BuildPlan(disk, r).value;
    LastRequestWins(plan.oldConfiguration, r, r);
    LastRequestWins(plan.oldWorkflow, r, r);
  }

  /** What a plan puts on disk: the requested pins, both commits the same, and no other line touched. */
  lemma PlanPinsTheRequest(disk: Disk, r: Request)
    requires BuildPlan(disk, r).Ok?
    ensures var plan := BuildPlan(disk, r).value;
      var before, after := Split(plan.oldConfiguration), Split(plan.configuration);
      && Values(CONFIG_VERSION, after) == [r.version] && Values(CONFIG_DIGEST, after) == [r.checksums]
      && Others(CONFIG_VERSION, CONFIG_DIGEST, after) == Others(CONFIG_VERSION, CONFIG_DIGEST, before)
    ensures var plan := BuildPlan(disk, r).value;
      var before, after := Split(plan.oldWorkflow), Split(plan.workflow);
      && Values(WORKFLOW_USE, after) == [r.workflowSHA] && Values(WORKFLOW_INPUT, after) == [r.workflowSHA]
      && Others(WORKFLOW_USE, WORKFLOW_INPUT, after) == Others(WORKFLOW_USE, WORKFLOW_INPUT, before)
  {
    hide RewriteConfigurationLines, RewriteWorkflowLines, ValidRequest, Split, Join;
    var plan := BuildPlan(disk, r).value;
    ConfigurationLines(plan.oldConfiguration, r);
    ConfigurationPinned(Split(plan.oldConfiguration), r);
    WorkflowLines(plan.oldWorkflow, r);
    WorkflowPinned(Split(plan.oldWorkflow), r);
  }

  // ----- an upgrade that outgrows the limit

  /** The plainest line of a pin. */
  lemma PlainPin(p: Pin, value: string)
    requires WellShaped(p) && Accepts(p.kind, value)
    ensures var line := p.key + " " + p.path + value; Matches(p, line) && Value(p, line) == value
  {
    hide Accepts, KeyAt, PathAt, HasKey, HasPath, WordRun, BlankRun;
    ValueIsWord(p.kind, value);
    FirstOfSolid(value);
    var line := p.key + " " + p.path + value;
    PlainStart(p, value);
    assert line[|p.key| + 1 + |p.path|..] == value && value + "" == value;
    WordEnds(value, "");
    assert line[|line|..] == "";
    BlankRunIs("", 0);
  }

  lemma PlainStart(p: Pin, value: string)
    requires WellShaped(p) && value != "" && !Blank(value[0])
    ensures ValueStart(p, p.key + " " + p.path + value) == Some(|p.key| + 1 + |p.path|)
  {
    hide Blank, BlankRun;
    var line := p.key + " " + p.path + value;
    var n := |p.key|;
    BlankSpace();
    PlainParts(p.key, p.path, value);
    if p.indented {
      BlankRunIs(line, 0);
    }
    BlankRunIs(line[n..], 1);
  }

  lemma PlainParts(key: string, path: string, value: string)
    requires key != "" && value != ""
    ensures var line := key + " " + path + value;
      && line[0] == key[0] && key <= line[0..] && |line[|key|..]| > 1 && line[|key|..][0] == ' '
      && line[|key|..][1] == (if path == "" then value[0] else path[0]) && path <= line[|key| + 1..]
  {
    var line := key + " " + path + value;
    assert line[0..] == line && line[..|key|] == key;
    assert line[|key| + 1..] == path + value;
  }

  lemma BlankSpace()
    ensures Blank(' ')
  {
  }

  const OLD_VERSION := "v1.0.0"
  const FILLER: nat := MAXIMUM_FILE_SIZE - 21

  /** A configuration of exactly the size that can be read, without a digest. */
  function FullConfiguration(): string {
    CONFIG_VERSION.key + " " + CONFIG_VERSION.path + OLD_VERSION + "\n" + seq(FILLER, _ => '-')
  }

  function PlainWorkflow(commit: string): string {
    (WORKFLOW_USE.key + " " + WORKFLOW_USE.path + commit)
      + "\n" + (WORKFLOW_INPUT.key + " " + WORKFLOW_INPUT.path + commit)
  }

  lemma OldVersionIsVersion()
    ensures Accepts(Version, OLD_VERSION)
  {
    assert OLD_VERSION[1..] == "1.0.0";
    assert DigitRun("1.0.0") == 1 && "1.0.0"[2..] == "0.0";
    assert DigitRun("0.0") == 1 && "0.0"[2..] == "0";
    assert DigitRun("0") == 1;
  }

  lemma TwoLines(first: string, second: string)
    requires '\n' !in first && '\n' !in second
    ensures Split(first + "\n" + second) == [first, second]
  {
    SplitLine(first, second);
    SplitLine(second, "");
  }

  /** A file of a version line and a line that is no pin gains a digest line. */
  lemma DigestIsAdded(first: string, second: string, r: Request)
    requires ValidRequest(r) && Matches(CONFIG_VERSION, first)
    requires !Matches(CONFIG_VERSION, second) && !Matches(CONFIG_DIGEST, second)
    ensures RewriteConfigurationLines([first, second], r)
      == Ok([Rewritten(CONFIG_VERSION, first, r.version), NEW_DIGEST + r.checksums, second])
  {
    hide Accepts, Matches, Value, Rewritten, Fits, Apart, Values, Replace;
    var lines := [first, second];
    ValuesOfTwo(CONFIG_VERSION, first, second);
    ValuesOfTwo(CONFIG_DIGEST, first, second);
    ReplaceOfTwo(CONFIG_VERSION, first, second, r.version);
    RequestFits(r);
    PinsAreApart();
    ApartIsShaped(CONFIG_VERSION, CONFIG_DIGEST);
    ApartNeverMatch(CONFIG_VERSION, CONFIG_DIGEST, first);
    ReplaceKeepsOther(CONFIG_VERSION, CONFIG_DIGEST, lines, r.version, "");
    Unmatched(CONFIG_VERSION, second, r.version);
    RewrittenMatches(CONFIG_VERSION, first, r.version, "");
    var next := Rewritten(CONFIG_VERSION, first, r.version);
    assert Replace(CONFIG_VERSION, lines, r.version) == [next, second];
    assert [next, second][1..] == [second];
    assert InsertAfter(CONFIG_VERSION, [next, second], NEW_DIGEST + r.checksums)
      == [next, NEW_DIGEST + r.checksums, second];
    assert |Values(CONFIG_DIGEST, [next, second])| == 0;
    assert RewriteConfigurationLines(lines, r)
      == Ok(InsertAfter(CONFIG_VERSION, [next, second], NEW_DIGEST + r.checksums));
  }

  lemma JoinThree(a: string, b: string, c: string)
    ensures |Join([a, b, c])| == |a| + |b| + |c| + 2
  {
    assert [a, b, c][1..] == [b, c] && [b, c][1..] == [c];
    assert Join([b, c]) == b + "\n" + Join([c]);
  }

  lemma FullConfigurationGrows(r: Request)
    requires ValidRequest(r)
    ensures |FullConfiguration()| == MAXIMUM_FILE_SIZE
    ensures RewriteConfiguration(FullConfiguration(), r).Ok?
    ensures |RewriteConfiguration(FullConfiguration(), r).value| > MAXIMUM_FILE_SIZE
  {
    hide Accepts, Matches, Rewritten, RewriteConfigurationLines, Join, Split;
    var first := CONFIG_VERSION.key + " " + CONFIG_VERSION.path + OLD_VERSION;
    var second: string := seq(FILLER, _ => '-');
    FullLines(first, second);
    DigestIsAdded(first, second, r);
    JoinThree(Rewritten(CONFIG_VERSION, first, r.version), NEW_DIGEST + r.checksums, second);
    DigestLength(r.checksums);
  }

  lemma FullLines(first: string, second: string)
    requires first == CONFIG_VERSION.key + " " + CONFIG_VERSION.path + OLD_VERSION && second == seq(FILLER, _ => '-')
    ensures Matches(CONFIG_VERSION, first) && !Matches(CONFIG_VERSION, second) && !Matches(CONFIG_DIGEST, second)
    ensures |first| == 20 && FullConfiguration() == first + "\n" + second
    ensures Split(FullConfiguration()) == [first, second]
  {
    hide Accepts, Matches, Split;
    OldVersionIsVersion();
    PinsAreApart();
    ApartIsShaped(CONFIG_VERSION, CONFIG_DIGEST);
    PlainPin(CONFIG_VERSION, OLD_VERSION);
    DashesMatchNothing(second);
    assert '\n' !in CONFIG_VERSION.key && '\n' !in OLD_VERSION && '\n' !in " ";
    hide OLD_VERSION;
    TwoLines(first, second);
  }

  lemma DigestLength(sum: string)
    requires Accepts(Digest, sum)
    ensures |sum| == 64
  {
  }

  lemma DashesMatchNothing(line: string)
    requires line != "" && forall c | c in line :: c == '-'
    ensures !Matches(CONFIG_VERSION, line) && !Matches(CONFIG_DIGEST, line) && '\n' !in line
  {
    assert line[0..] == line && line[0] in line;
    assert CONFIG_VERSION.key[0] == 't' && CONFIG_DIGEST.key[0] == 't';
  }

  lemma PlainWorkflowRewritten(commit: string, r: Request)
    requires ValidRequest(r) && Accepts(Commit, commit)
    ensures RewriteWorkflow(PlainWorkflow(commit), r).Ok?
  {
    hide Accepts, Matches, Value, Rewritten, Split, Apart;
    var first := WORKFLOW_USE.key + " " + WORKFLOW_USE.path + commit;
    var second := WORKFLOW_INPUT.key + " " + WORKFLOW_INPUT.path + commit;
    PinsAreApart();
    ApartIsShaped(WORKFLOW_USE, WORKFLOW_INPUT);
    PlainPin(WORKFLOW_USE, commit);
    PlainPin(WORKFLOW_INPUT, commit);
    ValueIsWord(Commit, commit);
    NoLineFeeds(first, second, commit);
    TwoLines(first, second);
    TwoPins(first, second, commit, r);
  }

  lemma NoLineFeeds(first: string, second: string, commit: string)
    requires first == WORKFLOW_USE.key + " " + WORKFLOW_USE.path + commit
    requires second == WORKFLOW_INPUT.key + " " + WORKFLOW_INPUT.path + commit && Solid(commit)
    ensures '\n' !in first && '\n' !in second
  {
    assert '\n' !in "faustbrian/" && '\n' !in "go-library-tools/"
      && '\n' !in ".github/workflows/" && '\n' !in "library-ci.yml@";
    assert '\n' !in REFERENCE;
    assert '\n' !in WORKFLOW_USE.key && '\n' !in WORKFLOW_INPUT.key && '\n' !in " ";
  }

  lemma TwoPins(first: string, second: string, commit: string, r: Request)
    requires Matches(WORKFLOW_USE, first) && Value(WORKFLOW_USE, first) == commit
    requires Matches(WORKFLOW_INPUT, second) && Value(WORKFLOW_INPUT, second) == commit
    ensures RewriteWorkflowLines([first, second], r).Ok?
  {
    hide Matches, Value, Replace, Values;
    PinsAreApart();
    ApartNeverMatch(WORKFLOW_USE, WORKFLOW_INPUT, first);
    ApartNeverMatch(WORKFLOW_USE, WORKFLOW_INPUT, second);
    ValuesOfTwo(WORKFLOW_USE, first, second);
    ValuesOfTwo(WORKFLOW_INPUT, first, second);
  }

  lemma ValuesOfTwo(p: Pin, first: string, second: string)
    ensures Values(p, [first, second]) ==
      (if Matches(p, first) then [Value(p, first)] else []) + (if Matches(p, second) then [Value(p, second)] else [])
  {
    hide Matches, Value;
    assert [first, second][1..] == [second] && [second][1..] == [];
    if Matches(p, second) {
      MatchStarts(p, second);
    }
    assert Values(p, [second]) == (if Matches(p, second) then [Value(p, second)] else []) + Values(p, []);
  }

  lemma ReplaceOfTwo(p: Pin, first: string, second: string, text: string)
    ensures Replace(p, [first, second], text) == [Rewritten(p, first, text), Rewritten(p, second, text)]
  {
    hide Rewritten;
    assert [first, second][1..] == [second] && [second][1..] == [];
    assert Replace(p, [second], text) == [Rewritten(p, second, text)] + Replace(p, [], text);
  }

  /** A repository whose files can be read and planned for, but whose updated
      configuration can no longer be read: planning again is refused. */
  lemma UpdateCanOutgrow(r: Request)
    requires ValidRequest(r)
    ensures var disk := map[CONFIGURATION := Regular(FullConfiguration()),
                                    WORKFLOW := Regular(PlainWorkflow(r.workflowSHA))];
      BuildPlan(disk, r).Ok? && BuildPlan(Updated(disk, BuildPlan(disk, r).value), r) == Err(UnreadableConfiguration)
  {
    hide RewriteConfiguration, RewriteWorkflow, FullConfiguration, Accepts;
    FullConfigurationGrows(r);
    PlainWorkflowRewritten(r.workflowSHA, r);
    CommitLength(r.workflowSHA);
  }

  lemma CommitLength(commit: string)
    requires Accepts(Commit, commit)
    ensures |PlainWorkflow(commit)| <= MAXIMUM_FILE_SIZE
  {
  }

  // ----- applying it

  /** `now` has every entry of `before`, and no artifact besides; temporaries may be left over. */
  ghost predicate Same(before: Disk, now: Disk) {
    forall p: Path | p in before || p.Artifact? :: (p in now <==> p in before) && (p in before ==> now[p] == before[p])
  }

  /** As before, but for one file that may hold whole new bytes. */
  ghost predicate SameOr(before: Disk, now: Disk, target: Path, bytes: Bytes) {
    Same(before, now) || Same(before[target := Regular(bytes)], now)
  }

  /** All states a run went through since `log`: the target holds its old bytes or all of the new ones. */
  ghost predicate Steps(log: seq<Disk>, trace: seq<Disk>, before: Disk, target: Path, bytes: Bytes) {
    |log| <= |trace| && trace[..|log|] == log && forall i | |log| <= i < |trace| ::
      SameOr(before, trace[i], target, bytes)
  }

  lemma OneMoreStep(log: seq<Disk>, trace: seq<Disk>, disk: Disk, before: Disk, target: Path, bytes: Bytes)
    requires Steps(log, trace, before, target, bytes) && SameOr(before, disk, target, bytes)
    ensures Steps(log, trace + [disk], before, target, bytes)
  {
    hide SameOr;
  }

  /** Only one temporary differs. */
  ghost predicate Scratch(before: Disk, now: Disk, temporary: Path) {
    forall p: Path | p != temporary :: (p in now <==> p in before) && (p in before ==> now[p] == before[p])
  }

  lemma ScratchIsSame(before: Disk, made: Disk, now: Disk, temporary: Path)
    requires temporary.Temporary? && temporary !in before
    requires Scratch(before, made, temporary) && Scratch(made, now, temporary)
    ensures Scratch(before, now, temporary) && Same(before, now)
  {
  }

  /** The operations of one atomic write that goes through; only the removal of
      the temporary's name at the end may fail. */
  ghost function Writing(target: Path, temporary: Path, untidy: bool): seq<Event> {
    var t := Some(temporary);
    [Event(Look, Some(target), false), Event(Create, t, false), Event(Chmod, t, false),
     Event(Operation.Write, t, false),
     Event(Sync, t, false), Event(Close, t, false), Event(Operation.Rename(target), t, false),
     Event(Operation.Remove, t, untidy)]
  }

  /** From event `from` on one whole write of the target goes through. */
  ghost predicate Written(history: seq<Event>, from: nat, target: Path) {
    from + 8 <= |history| && exists temporary, untidy :: history[from..from + 8] == Writing(target, temporary, untidy)
  }

  /** The events between are those of one write of the target, and one of them failed. */
  ghost predicate WriteFailed(history: seq<Event>, from: nat, to: nat, target: Path) {
    && from < to <= |history| && history[from].operation.Look? && history[from].path == Some(target)
    && (forall i | from < i < to :: !history[i].operation.Look?)
    && exists i | from <= i < to :: history[i].failed
  }

  /** From event `from` on, no file that was to be removed has been kept. */
  ghost predicate RemovalsPass(history: seq<Event>, from: nat) {
    forall i | from <= i < |history| && history[i].operation.Remove? :: !history[i].failed
  }

  lemma RemovalsWithin(log: seq<Event>, middle: seq<Event>, history: seq<Event>)
    requires log <= middle <= history
    ensures RemovalsPass(history, |log|) ==> RemovalsPass(middle, |log|) && RemovalsPass(history, |middle|)
  {
    if RemovalsPass(history, |log|) {
      forall i | |log| <= i < |middle| && middle[i].operation.Remove? ensures !middle[i].failed {
        assert middle[i] == history[i];
      }
    }
  }

  lemma WrittenStays(middle: seq<Event>, history: seq<Event>, from: nat, target: Path)
    requires middle <= history && Written(middle, from, target)
    ensures Written(history, from, target)
  {
    assert history[from..from + 8] == middle[from..from + 8];
  }

  lemma WriteFailedStays(middle: seq<Event>, history: seq<Event>, from: nat, to: nat, target: Path)
    requires middle <= history && WriteFailed(middle, from, to, target)
    ensures WriteFailed(history, from, to, target)
  {
    var i :| from <= i < to && middle[i].failed;
    assert history[i] == middle[i];
    forall j | from < j < to ensures !history[j].operation.Look? {
      assert history[j] == middle[j];
    }
  }

  /** New events of a write that is under way: none looks up another target. */
  ghost predicate Underway(log: seq<Event>, history: seq<Event>, target: Path, failed: bool) {
    && |log| < |history| && log <= history
    && history[|log|].operation.Look? && history[|log|].path == Some(target)
    && (forall i | |log| < i < |history| :: !history[i].operation.Look?)
    && (failed ==> exists i | |log| <= i < |history| :: history[i].failed)
  }

  lemma UnderwayMore(log: seq<Event>, middle: seq<Event>, history: seq<Event>, target: Path, failed: bool)
    requires Underway(log, middle, target, failed) && middle <= history
    requires forall i | |middle| <= i < |history| :: !history[i].operation.Look?
    ensures Underway(log, history, target, failed || exists i | |middle| <= i < |history| :: history[i].failed)
  {
    forall i | |log| <= i < |middle| ensures history[i] == middle[i] {
    }
    if failed {
      var i :| |log| <= i < |middle| && middle[i].failed;
      assert history[i].failed;
    }
  }

  lemma UnderwayFails(log: seq<Event>, history: seq<Event>, target: Path)
    requires Underway(log, history, target, true)
    ensures WriteFailed(history, |log|, |history|, target)
  {
  }

  /** Replaces one file by way of a temporary: wholly, or not at all. */
  method AtomicWrite(files: Directory, target: Path, bytes: Bytes) returns (ok: bool)
    requires target.Artifact?
    modifies files
    ensures ok ==> target in old(files.disk) && files.disk == old(files.disk)[target := Regular(bytes)]
    ensures !ok ==> Same(old(files.disk), files.disk)
    ensures !ok && RemovalsPass(files.history, |old(files.history)|) ==> files.disk == old(files.disk)
    ensures Steps(old(files.trace), files.trace, old(files.disk), target, bytes)
    ensures old(files.clock) <= files.clock && old(files.history) <= files.history
    ensures ok ==> |files.history| == |old(files.history)| + 8 && Written(files.history, |old(files.history)|, target)
    ensures !ok && target in old(files.disk) && old(files.disk)[target].Regular? ==>
      WriteFailed(files.history, |old(files.history)|, |files.history|, target)
    ensures !ok && files.QuietSince(old(files.clock)) ==>
      target !in old(files.disk) || old(files.disk)[target].Irregular?
      || NamesRanOut(files.suffixes, files.trace, old(files.clock))
  {
    hide Same, Scratch, Exhausted, Steps, Underway, Written, WriteFailed, Writing, RemovalsPass;
    ghost var before, log, asked := files.disk, files.trace, files.history;
    StartSteps(log, before, target, bytes);
    var lookup := files.Lstat(target);
    LookedUp(asked, target, lookup.Broken?);
    if lookup.Broken? {
      UnderwayFails(asked, files.history, target);
    }
    OneMoreStep(log, log, before, before, target, bytes);
    if !lookup.Found? || lookup.entry.Irregular? {
      return false;
    }
    ghost var made, looked := files.trace, files.history;
    var temporary := files.CreateTemp();
    OneMoreEvent(asked, looked, files.history, target, false);
    if temporary.None? {
      UnderwayFails(asked, files.history, target);
      OneMoreStep(log, made, before, before, target, bytes);
      assert before in files.trace;
      return false;
    }
    NewIsScratch(before, temporary.value, Regular(""));
    OneMoreStep(log, made, files.disk, before, target, bytes);
    ghost var created := files.history;
    ok := Fill(files, temporary.value, bytes, before, log, target);
    UnderwayMore(asked, created, files.history, target, false);
    ghost var settled := files.history;
    if ok {
      ghost var filled := files.trace;
      RenamedIsUpdated(before, files.disk, temporary.value, target, bytes);
      ok := files.Rename(temporary.value, target);
      OneMoreStep(log, filled, files.disk, before, target, bytes);
      OneMoreEvent(asked, settled, files.history, target, false);
    }
    ghost var last, disk, renamed := files.trace, files.disk, files.history;
    var removal := files.Remove(temporary.value);
    OneMoreEvent(asked, renamed, files.history, target, !ok);
    if ok {
      GoneThrough(asked, created, settled, files.history, target, temporary.value, removal.NotRemoved?);
    } else if target in before && before[target].Regular? {
      UnderwayFails(asked, files.history, target);
    }
    RemovalPassed(asked, renamed, files.history);
    RemovedIsSame(before, disk, files.disk, temporary.value, target, bytes, ok, !removal.NotRemoved?);
    OneMoreStep(log, last, files.disk, before, target, bytes);
  }

  lemma RemovalPassed(log: seq<Event>, middle: seq<Event>, history: seq<Event>)
    requires log <= middle && |history| == |middle| + 1 && history[|middle|].operation.Remove?
    ensures RemovalsPass(history, |log|) ==> !history[|middle|].failed
  {
  }

  lemma LookedUp(log: seq<Event>, target: Path, failed: bool)
    ensures Underway(log, log + [Event(Look, Some(target), failed)], target, failed)
  {
    if failed {
      assert (log + [Event(Look, Some(target), failed)])[|log|].failed;
    }
  }

  lemma OneMoreEvent(log: seq<Event>, middle: seq<Event>, history: seq<Event>, target: Path, failed: bool)
    requires Underway(log, middle, target, failed)
    requires |history| == |middle| + 1 && middle <= history && !history[|middle|].operation.Look?
    ensures Underway(log, history, target, failed || history[|middle|].failed)
  {
    UnderwayMore(log, middle, history, target, failed);
  }

  lemma GoneThrough(log: seq<Event>, created: seq<Event>, settled: seq<Event>, history: seq<Event>, target: Path,
                    temporary: Path, untidy: bool)
    requires created == log + [Event(Look, Some(target), false)] + [Event(Create, Some(temporary), false)]
    requires settled == created + Writing(target, temporary, false)[2..6]
    requires history == settled + [Event(Operation.Rename(target), Some(temporary), false)]
      + [Event(Operation.Remove, Some(temporary), untidy)]
    ensures |history| == |log| + 8 && Written(history, |log|, target)
  {
    assert history == log + Writing(target, temporary, untidy);
    assert history[|log|..|log| + 8] == Writing(target, temporary, untidy);
  }

  lemma StartSteps(log: seq<Disk>, before: Disk, target: Path, bytes: Bytes)
    ensures Steps(log, log, before, target, bytes) && Same(before, before)
  {
  }

  lemma NewIsScratch(before: Disk, temporary: Path, entry: Entry)
    requires temporary.Temporary? && temporary !in before
    ensures Scratch(before, before[temporary := entry], temporary) && Same(before, before[temporary := entry])
  {
  }

  /** Renaming a filled temporary leaves exactly the updated directory, without the temporary. */
  lemma RenamedIsUpdated(before: Disk, disk: Disk, temporary: Path, target: Path, bytes: Bytes)
    requires temporary.Temporary? && temporary !in before && target.Artifact?
    requires Scratch(before, disk, temporary) && temporary in disk && disk[temporary] == Regular(bytes)
    ensures (disk - {temporary})[target := disk[temporary]] == before[target := Regular(bytes)]
    ensures Same(before[target := Regular(bytes)], before[target := Regular(bytes)])
    ensures Same(before, disk)
  {
    var next := (disk - {temporary})[target := disk[temporary]];
    var updated := before[target := Regular(bytes)];
    forall p: Path ensures p in next <==> p in updated {
    }
    forall p | p in next ensures next[p] == updated[p] {
    }
  }

  lemma RemovedIsSame(before: Disk, disk: Disk, now: Disk, temporary: Path, target: Path, bytes: Bytes, ok: bool,
                      removed: bool)
    requires temporary.Temporary? && temporary !in before && target.Artifact?
    requires removed ==> temporary !in now
    requires if ok then disk == before[target := Regular(bytes)] else Scratch(before, disk, temporary)
    requires now == disk || (temporary in disk && now == disk - {temporary})
    ensures if ok then now == disk && Same(disk, now) else Same(before, now)
    ensures !ok && removed ==> now == before
  {
  }

  /** Chmod, write, sync, close: only the temporary is touched. */
  method Fill(files: Directory, temporary: Path, bytes: Bytes, ghost before: Disk, ghost log: seq<Disk>,
              ghost target: Path) returns (ok: bool)
    requires temporary in files.disk && temporary.Temporary? && temporary !in before
    requires Scratch(before, files.disk, temporary) && Steps(log, files.trace, before, target, bytes)
    modifies files
    ensures Scratch(before, files.disk, temporary) && Steps(log, files.trace, before, target, bytes)
    ensures temporary in files.disk && (ok ==> files.disk[temporary] == Regular(bytes))
    ensures old(files.clock) <= files.clock && (files.QuietSince(old(files.clock)) ==> ok)
    ensures old(files.history) <= files.history
    ensures forall i | |old(files.history)| <= i < |files.history| :: !files.history[i].operation.Look?
    ensures !ok ==> exists i | |old(files.history)| <= i < |files.history| :: files.history[i].failed
    ensures ok ==> files.history == old(files.history) + Writing(target, temporary, false)[2..6]
  {
    hide Same, Scratch, Steps;
    ghost var from := |files.history|;
    SettleSteps(log, files.trace, files.disk, before, target, bytes, temporary);
    ok := files.Settle(Chmod, Some(temporary));
    SettleSteps(log, files.trace, files.disk, before, target, bytes, temporary);
    if !ok {
      var _ := files.Settle(Close, Some(temporary));
      assert files.history[from].failed;
      return false;
    }
    ghost var made := files.disk;
    var count;
    count, ok := files.Write(temporary, bytes);
    OverwrittenIsScratch(before, made, temporary, files.disk[temporary]);
    OneMoreStep(log, files.trace[..|files.trace| - 1], files.disk, before, target, bytes);
    SettleSteps(log, files.trace, files.disk, before, target, bytes, temporary);
    if !ok || count != |bytes| {
      var _ := files.Settle(Close, Some(temporary));
      assert files.history[from + 1].failed;
      return false;
    }
    ok := files.Settle(Sync, Some(temporary));
    SettleSteps(log, files.trace, files.disk, before, target, bytes, temporary);
    if !ok {
      var _ := files.Settle(Close, Some(temporary));
      assert files.history[from + 2].failed;
      return false;
    }
    ok := files.Settle(Close, Some(temporary));
    assert files.history[from + 3].failed <==> !ok;
  }

  lemma OverwrittenIsScratch(before: Disk, disk: Disk, temporary: Path, entry: Entry)
    requires temporary.Temporary? && temporary !in before && Scratch(before, disk, temporary)
    ensures Scratch(before, disk[temporary := entry], temporary) && Same(before, disk[temporary := entry])
  {
  }

  lemma SettleSteps(log: seq<Disk>, trace: seq<Disk>, disk: Disk, before: Disk, target: Path, bytes: Bytes,
                    temporary: Path)
    requires Steps(log, trace, before, target, bytes) && Scratch(before, disk, temporary)
    requires temporary.Temporary? && temporary !in before
    ensures Steps(log, trace + [disk], before, target, bytes)
  {
    ScratchIsSame(before, disk, disk, temporary);
    OneMoreStep(log, trace, disk, before, target, bytes);
  }

  datatype Outcome = Applied | ConfigurationNotWritten | WorkflowNotWritten | RollbackFailed

  ghost predicate Holds(disk: Disk, path: Path, bytes: Bytes) {
    path in disk && disk[path] == Regular(bytes)
  }

  /** At every moment both files are whole: both old, both new, or the configuration alone new. */
  ghost predicate BothWhole(before: Disk, now: Disk, plan: Plan) {
    Same(before, now) || Same(before[CONFIGURATION := Regular(plan.configuration)], now)
    || Same(Updated(before, plan), now)
  }

  ghost predicate AllWhole(log: seq<Disk>, trace: seq<Disk>, before: Disk, plan: Plan) {
    |log| <= |trace| && trace[..|log|] == log && forall i | |log| <= i < |trace| :: BothWhole(before, trace[i], plan)
  }

  /** The workflow's write failed before event `undo`; from there on the
      configuration, if it had been written, is written back. */
  ghost predicate Undone(plan: Plan, history: seq<Event>, half: nat, undo: nat) {
    && WriteFailed(history, half, undo, WORKFLOW)
    && if plan.ConfigurationChanged() then Written(history, undo, CONFIGURATION) && |history| == undo + 8
      else |history| == undo
  }

  /** The event number at which the workflow's turn comes. */
  ghost function HalfWay(plan: Plan, from: nat): nat {
    from + if plan.ConfigurationChanged() then 8 else 0
  }

  /** The writes of a run, all those added to `log`. Each changed file is written
      in turn; a failed write is followed, when the configuration was written
      before it, by one more write of the configuration, and by nothing else. */
  ghost predicate Course(plan: Plan, log: seq<Event>, history: seq<Event>, outcome: Outcome) {
    var half := HalfWay(plan, |log|);
    && log <= history
    && match outcome
       case ConfigurationNotWritten =>
         plan.ConfigurationChanged() && WriteFailed(history, |log|, |history|, CONFIGURATION)
       case Applied =>
         && (plan.ConfigurationChanged() ==> Written(history, |log|, CONFIGURATION))
         && if plan.WorkflowChanged() then Written(history, half, WORKFLOW) && |history| == half + 8
           else |history| == half
       case WorkflowNotWritten =>
         && (plan.ConfigurationChanged() ==> Written(history, |log|, CONFIGURATION))
         && plan.WorkflowChanged()
         && exists undo: nat :: Undone(plan, history, half, undo)
       case RollbackFailed =>
         && plan.ConfigurationChanged() && Written(history, |log|, CONFIGURATION)
         && plan.WorkflowChanged()
         && exists undo: nat ::
           WriteFailed(history, half, undo, WORKFLOW) && WriteFailed(history, undo, |history|, CONFIGURATION)
  }

  method Apply(files: Directory, plan: Plan) returns (outcome: Outcome)
    requires Holds(files.disk, CONFIGURATION, plan.oldConfiguration) && Holds(files.disk, WORKFLOW, plan.oldWorkflow)
    modifies files
    ensures outcome.Applied? ==> files.disk == Updated(old(files.disk), plan)
    ensures outcome.ConfigurationNotWritten? || outcome.WorkflowNotWritten? ==> Same(old(files.disk), files.disk)
    ensures outcome.RollbackFailed? ==>
      (plan.ConfigurationChanged() && plan.WorkflowChanged()
       && Same(old(files.disk)[CONFIGURATION := Regular(plan.configuration)], files.disk))
    ensures !outcome.Applied? && RemovalsPass(files.history, |old(files.history)|) ==>
      files.disk == if outcome.RollbackFailed? then old(files.disk)[CONFIGURATION := Regular(plan.configuration)]
        else old(files.disk)
    ensures AllWhole(old(files.trace), files.trace, old(files.disk), plan)
    ensures Course(plan, old(files.history), files.history, outcome)
    ensures !plan.Changed() ==> outcome.Applied? && files.trace == old(files.trace)
    ensures !outcome.Applied? && files.QuietSince(old(files.clock)) ==>
      NamesRanOut(files.suffixes, files.trace, old(files.clock))
  {
    hide Same, Steps, NamesRanOut, Written, WriteFailed, RemovalsPass;
    ghost var before, log, asked := files.disk, files.trace, files.history;
    Unchanged(before, plan);
    if plan.ConfigurationChanged() {
      var ok := AtomicWrite(files, CONFIGURATION, plan.configuration);
      WholeAfterConfiguration(log, files.trace, before, plan);
      if !ok {
        return ConfigurationNotWritten;
      }
    }
    ghost var middle, half, later, done := files.trace, files.disk, files.clock, files.history;
    assert half == before[CONFIGURATION := Regular(plan.configuration)];
    ghost var start := HalfWay(plan, |asked|);
    if plan.WorkflowChanged() {
      var ok := AtomicWrite(files, WORKFLOW, plan.workflow);
      WholeAfterWorkflow(log, middle, files.trace, before, half, plan);
      if plan.ConfigurationChanged() {
        WrittenStays(done, files.history, |asked|, CONFIGURATION);
      }
      if !ok {
        RemovalsWithin(asked, done, files.history);
        if NamesRanOut(files.suffixes, files.trace, later) {
          RanOutBefore(files.suffixes, files.trace, files.trace, old(files.clock), later);
        }
        if plan.ConfigurationChanged() {
          ghost var failed, left, undo := files.trace, files.disk, files.history;
          StillRegular(half, left, plan);
          var restored := AtomicWrite(files, CONFIGURATION, plan.oldConfiguration);
          RemovalsWithin(asked, undo, files.history);
          RemovalsWithin(asked, done, undo);
          WrittenStays(undo, files.history, |asked|, CONFIGURATION);
          WriteFailedStays(undo, files.history, |done|, |undo|, WORKFLOW);
          if NamesRanOut(files.suffixes, failed, later) {
            StepsExtend(failed, files.trace, left, CONFIGURATION, plan.oldConfiguration);
            RanOutBefore(files.suffixes, failed, files.trace, old(files.clock), later);
          }
          WholeAfterRollback(log, failed, files.trace, before, half, left, plan);
          if !restored {
            SameTwice(half, left, files.disk);
            return RollbackFailed;
          }
          RestoredIsSame(before, half, left, plan);
          assert Undone(plan, files.history, start, |undo|);
        }
        if !plan.ConfigurationChanged() {
          assert Undone(plan, files.history, start, |files.history|);
        }
        return WorkflowNotWritten;
      }
    }
    outcome := Applied;
  }

  lemma StillRegular(half: Disk, left: Disk, plan: Plan)
    requires Holds(half, CONFIGURATION, plan.configuration) && Same(half, left)
    ensures Holds(left, CONFIGURATION, plan.configuration)
  {
  }

  lemma StepsExtend(log: seq<Disk>, trace: seq<Disk>, before: Disk, target: Path, bytes: Bytes)
    requires Steps(log, trace, before, target, bytes)
    ensures log <= trace
  {
  }

  lemma Unchanged(before: Disk, plan: Plan)
    requires Holds(before, CONFIGURATION, plan.oldConfiguration) && Holds(before, WORKFLOW, plan.oldWorkflow)
    ensures !plan.ConfigurationChanged() ==> before[CONFIGURATION := Regular(plan.configuration)] == before
    ensures !plan.WorkflowChanged() ==> before[CONFIGURATION := Regular(plan.configuration)] == Updated(before, plan)
    ensures Same(before, before)
  {
  }

  lemma SameTwice(a: Disk, b: Disk, c: Disk)
    requires Same(a, b) && Same(b, c)
    ensures Same(a, c)
  {
  }

  lemma RestoredIsSame(before: Disk, half: Disk, left: Disk, plan: Plan)
    requires half == before[CONFIGURATION := Regular(plan.configuration)]
    requires Holds(before, CONFIGURATION, plan.oldConfiguration)
    requires Same(half, left)
    ensures Same(before, left[CONFIGURATION := Regular(plan.oldConfiguration)])
  {
  }

  lemma WholeAfterConfiguration(log: seq<Disk>, trace: seq<Disk>, before: Disk, plan: Plan)
    requires Steps(log, trace, before, CONFIGURATION, plan.configuration)
    ensures AllWhole(log, trace, before, plan)
  {
    hide Same;
  }

  lemma WholeAfterWorkflow(log: seq<Disk>, middle: seq<Disk>, trace: seq<Disk>, before: Disk, half: Disk, plan: Plan)
    requires AllWhole(log, middle, before, plan) && half == before[CONFIGURATION := Regular(plan.configuration)]
    requires Steps(middle, trace, half, WORKFLOW, plan.workflow)
    ensures AllWhole(log, trace, before, plan)
  {
    hide Same;
    forall i | |log| <= i < |trace| ensures BothWhole(before, trace[i], plan) {
      if i < |middle| {
        assert trace[i] == middle[i];
      }
    }
    assert trace[..|log|] == middle[..|log|];
  }

  lemma WholeAfterRollback(log: seq<Disk>, middle: seq<Disk>, trace: seq<Disk>, before: Disk, half: Disk, left: Disk,
                           plan: Plan)
    requires AllWhole(log, middle, before, plan) && half == before[CONFIGURATION := Regular(plan.configuration)]
    requires Holds(before, CONFIGURATION, plan.oldConfiguration) && Same(half, left)
    requires Steps(middle, trace, left, CONFIGURATION, plan.oldConfiguration)
    ensures AllWhole(log, trace, before, plan)
  {
    hide Same;
    RestoredIsSame(before, half, left, plan);
    forall i | |log| <= i < |trace| ensures BothWhole(before, trace[i], plan) {
      if i < |middle| {
        assert trace[i] == middle[i];
      } else if Same(left, trace[i]) {
        SameTwice(half, left, trace[i]);
      } else {
        SameTwice(before, left[CONFIGURATION := Regular(plan.oldConfiguration)], trace[i]);
      }
    }
    assert trace[..|log|] == middle[..|log|];
  }
}
