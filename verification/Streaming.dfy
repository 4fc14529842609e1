/** Recognisers fed by the output of a process in arbitrary chunks: an overflow
    flag, a fixed last line, and the collection of finding metadata. Each is
    compared with a definition on the whole stream. */
module Streaming {
  import opened Text

  const NEWLINE: char := '\n'
  const MAXIMUM_LOCATIONS: nat := 32
  const LINE_CAPACITY: nat := 256

  // ----- lines of a whole stream

  /** The part of a stream after its last newline. */
  function Residue(stream: string): string {
    if stream == "" || stream[|stream| - 1] == NEWLINE then ""
    else Residue(stream[..|stream| - 1]) + [stream[|stream| - 1]]
  }

  /** The complete lines of a stream, without their newlines. */
  function Lines(stream: string): seq<string> {
    if stream == "" then []
    else
      var front := stream[..|stream| - 1];
      if stream[|stream| - 1] == NEWLINE then Lines(front) + [Residue(front)] else Lines(front)
  }

  /** Lines and residue together are the stream. */
  lemma {:induction false} LinesRebuildStream(stream: string)
    ensures Joined(Lines(stream)) + Residue(stream) == stream
    ensures NEWLINE !in Residue(stream) && forall line | line in Lines(stream) :: NEWLINE !in line
  {
    if stream == "" {
    } else {
      var front := stream[..|stream| - 1];
      LinesRebuildStream(front);
      assert stream == front + [stream[|stream| - 1]];
      if stream[|stream| - 1] == NEWLINE {
        assert Lines(stream)[..|Lines(front)|] == Lines(front);
      }
    }
  }

  function Joined(lines: seq<string>): string {
    if lines == [] then "" else Joined(lines[..|lines| - 1]) + lines[|lines| - 1] + [NEWLINE]
  }

  /** The stream ends with exactly this line and a newline. */
  ghost predicate EndsWithLine(stream: string, line: string) {
    stream != "" && stream[|stream| - 1] == NEWLINE && Residue(stream[..|stream| - 1]) == line
  }

  lemma StreamStep(stream: string, c: char)
    ensures c == NEWLINE ==> Residue(stream + [c]) == "" && Lines(stream + [c]) == Lines(stream) + [Residue(stream)]
    ensures c != NEWLINE ==> Residue(stream + [c]) == Residue(stream) + [c] && Lines(stream + [c]) == Lines(stream)
  {
    assert (stream + [c])[..|stream|] == stream;
  }

  // ----- finding metadata

  predicate IsHex(c: char) {
    '0' <= c <= '9' || 'a' <= c <= 'f'
  }

  predicate AllHex(s: string) {
    forall i | 0 <= i < |s| :: IsHex(s[i])
  }

  predicate LineNumber(s: string) {
    1 <= |s| <= 7 && '1' <= s[0] <= '9' && forall i | 0 <= i < |s| :: '0' <= s[i] <= '9'
  }

  predicate CommitField(s: string) {
    s == "-" || ((|s| == 40 || |s| == 64) && AllHex(s))
  }

  /** Two digests, a line number, and a commit or a dash. */
  predicate SecretLocation(line: string) {
    && |line| > 130 && AllHex(line[..64]) && line[64] == ' ' && AllHex(line[65..129]) && line[129] == ' '
    && exists n | 1 <= n <= 7 :: NumberThenCommit(line[130..], n)
  }

  /** A number of `n` digits, a space, and a commit field. */
  predicate NumberThenCommit(tail: string, n: nat) {
    n < |tail| && LineNumber(tail[..n]) && tail[n] == ' ' && CommitField(tail[n + 1..])
  }

  lemma SecretLocationFits(line: string)
    requires SecretLocation(line)
    ensures |line| <= LINE_CAPACITY
  {
  }

  /** A stream the collector can vouch for, but for its last, open line: every
      complete line is a location, and the open one still fits the buffer. */
  ghost predicate WellBehaved(stream: string) {
    && (forall line | line in Lines(stream) :: SecretLocation(line))
    && |Residue(stream)| <= LINE_CAPACITY
  }

  /** Once a stream has misbehaved it stays so: its bad line is complete, or is
      too long to become a location. */
  ghost predicate Spoiled(stream: string) {
    exists k | 0 <= k <= |stream| :: !WellBehaved(stream[..k])
  }

  function FirstLines(lines: seq<string>): (first: seq<string>)
    ensures first <= lines && |first| == if |lines| < 32 then |lines| else 32
  {
    if |lines| <= MAXIMUM_LOCATIONS then lines else lines[..MAXIMUM_LOCATIONS]
  }

  function JoinLocations(locations: seq<string>): string {
    if locations == [] then ""
    else JoinLocations(locations[..|locations| - 1]) + "\nsecret-location " + locations[|locations| - 1]
  }

  /** The summary of a whole stream. */
  ghost function Summary(stream: string): string {
    if Spoiled(stream) || Residue(stream) != "" || Lines(stream) == [] then ""
    else
      JoinLocations(FirstLines(Lines(stream))) +
      if |Lines(stream)| > MAXIMUM_LOCATIONS then "\nadditional secret locations omitted" else ""
  }

  /** A stream of complete lines is vouched for exactly if all of them are locations. */
  lemma {:induction false} SpoiledIsABadLine(stream: string)
    ensures Spoiled(stream) <==>
      (exists line | line in Lines(stream) :: !SecretLocation(line)) || |Residue(stream)| > 256
  {
    if stream == "" {
      assert stream[..0] == "";
    } else {
      var front, c := stream[..|stream| - 1], stream[|stream| - 1];
      assert stream == front + [c];
      SpoiledIsABadLine(front);
      SpoiledStep(front, c);
      StreamStep(front, c);
      if |Residue(front)| > LINE_CAPACITY && c == NEWLINE {
        assert Residue(front) in Lines(stream) && !SecretLocation(Residue(front)) by {
          if SecretLocation(Residue(front)) {
            SecretLocationFits(Residue(front));
          }
        }
      }
    }
  }

  lemma SpoiledStep(stream: string, c: char)
    ensures Spoiled(stream + [c]) <==> Spoiled(stream) || !WellBehaved(stream + [c])
  {
    var more := stream + [c];
    assert more[..|more|] == more;
    assert forall k | 0 <= k <= |stream| :: more[..k] == stream[..k];
  }

  /** What the collector has on account after a summary: an open line is forgotten. */
  ghost function Closed(stream: string): string {
    if Spoiled(stream) || |Residue(stream)| > |stream| then stream else stream[..|stream| - |Residue(stream)|]
  }

  lemma {:induction false} CloseKeepsLines(stream: string)
    ensures |Residue(stream)| <= |stream|
    ensures var closed := stream[..|stream| - |Residue(stream)|];
      Lines(closed) == Lines(stream) && Residue(closed) == ""
  {
    if stream == "" || stream[|stream| - 1] == NEWLINE {
      assert stream[..|stream|] == stream;
    } else {
      var front := stream[..|stream| - 1];
      CloseKeepsLines(front);
      assert front[..|front| - |Residue(front)|] == stream[..|stream| - |Residue(stream)|];
    }
  }

  lemma ClosedIsExact(stream: string)
    ensures Spoiled(Closed(stream)) <==> Spoiled(stream)
    ensures !Spoiled(stream) ==> Lines(Closed(stream)) == Lines(stream) && Residue(Closed(stream)) == ""
  {
    CloseKeepsLines(stream);
    SpoiledIsABadLine(stream);
    SpoiledIsABadLine(Closed(stream));
  }

  /** Asking twice can give two answers: the first summary of a good stream with
      a line and an open line is empty, the next one is not. Otherwise they agree. */
  lemma SecondSummaryDiffers(stream: string)
    ensures Summary(stream) != Summary(Closed(stream)) <==>
      !Spoiled(stream) && Lines(stream) != [] && Residue(stream) != ""
  {
    ClosedIsExact(stream);
    if Lines(stream) != [] {
      var locations := FirstLines(Lines(stream));
      assert |JoinLocations(locations)| > 0;
    }
  }

  /** A stream of one location and one more character: it is summarised as
      nothing the first time and as that location the second. */
  function OpenStream(): string {
    GoodLine() + [NEWLINE] + "a"
  }

  function GoodLine(): string {
    Repeated('0', 64) + " " + Repeated('0', 64) + " " + "1 -"
  }

  lemma GoodLineIsLocation()
    ensures SecretLocation(GoodLine()) && NEWLINE !in GoodLine()
  {
    var line := GoodLine();
    assert line[..64] == Repeated('0', 64) && line[65..129] == Repeated('0', 64);
    assert line[130..] == "1 -";
    assert "1 -"[..1] == "1" && "1 -"[2..] == "-";
    assert NumberThenCommit(line[130..], 1);
  }

  lemma TwoSummariesDiffer()
    ensures Summary(OpenStream()) == "" && Summary(Closed(OpenStream())) == "\nsecret-location " + GoodLine()
  {
    hide SecretLocation, GoodLine, Spoiled, Lines, Residue, Closed, JoinLocations;
    var line, stream := GoodLine(), OpenStream();
    GoodLineIsLocation();
    OpenStreamLines(line);
    SpoiledIsABadLine(stream);
    ClosedIsExact(stream);
    JoinOne(line);
  }

  lemma JoinOne(line: string)
    ensures JoinLocations([line]) == "\nsecret-location " + line
  {
    assert [line][..0] == [];
    assert JoinLocations([line]) == JoinLocations([]) + "\nsecret-location " + line;
  }

  lemma OpenStreamLines(line: string)
    requires NEWLINE !in line
    ensures var stream := line + [NEWLINE] + "a"; Lines(stream) == [line] && Residue(stream) == "a"
  {
    LineByItself(line);
    StreamStep(line, NEWLINE);
    StreamStep(line + [NEWLINE], 'a');
    assert "" + ['a'] == "a";
  }

  lemma {:induction false} LineByItself(line: string)
    requires NEWLINE !in line
    ensures Lines(line) == [] && Residue(line) == line
  {
    if line != "" {
      LineByItself(line[..|line| - 1]);
      assert line == line[..|line| - 1] + [line[|line| - 1]];
    }
  }

  class SecretMetadata {
    var line: array<char>
    var length: nat
    var invalid: bool
    var omitted: bool
    var locations: seq<string>
    /** What has been written, less the open lines that a summary forgot. */
    ghost var stream: string

    ghost predicate Valid()
      reads this, line
    {
      && line.Length == LINE_CAPACITY && length <= LINE_CAPACITY
      && (invalid <==> Spoiled(stream))
      && (invalid ==> length == 0 && locations == [])
      && (!invalid ==> line[..length] == Residue(stream))
      && (!invalid ==> locations == FirstLines(Lines(stream)) && (omitted <==> |Lines(stream)| > MAXIMUM_LOCATIONS))
    }

    constructor ()
      ensures Valid() && stream == "" && fresh(line)
    {
      line := new char[LINE_CAPACITY](_ => ' ');
      length, invalid, omitted, locations := 0, false, false, [];
      stream := "";
      new;
      assert ""[..0] == "";
    }

    method Write(value: string)
      requires Valid()
      modifies this, line
      ensures Valid() && line == old(line) && stream == old(stream) + value
    {
      for i := 0 to |value|
        invariant Valid() && line == old(line) && stream == old(stream) + value[..i]
      {
        assert value[..i + 1] == value[..i] + [value[i]];
        Consume(value[i]);
      }
      assert value[..|value|] == value;
    }

    /** One byte of a write. */
    method Consume(character: char)
      requires Valid()
      modifies this`length, this`invalid, this`omitted, this`locations, this`stream, line
      ensures Valid() && stream == old(stream) + [character]
    {
      StreamStep(stream, character);
      SpoiledStep(stream, character);
      SpoiledIsABadLine(stream);
      SpoiledIsABadLine(stream + [character]);
      stream := stream + [character];
      if invalid {
        return;
      }
      if character != NEWLINE {
        if length == LINE_CAPACITY {
          Invalidate();
          return;
        }
        line[length] := character;
        length := length + 1;
        return;
      }
      var text := line[..length];
      assert text in Lines(stream);
      if !SecretLocation(text) {
        Invalidate();
        return;
      }
      if |locations| < MAXIMUM_LOCATIONS {
        locations := locations + [text];
      } else {
        omitted := true;
      }
      length := 0;
    }

    method Invalidate()
      modifies this`invalid, this`locations, this`length
      ensures invalid && locations == [] && length == 0
    {
      invalid, locations, length := true, [], 0;
    }

    /** The summary of the stream on account; an open line is forgotten. */
    method Summarize() returns (summary: string)
      requires Valid()
      modifies this`length, this`stream
      ensures Valid() && summary == Summary(old(stream)) && stream == Closed(old(stream))
    {
      ClosedIsExact(stream);
      CloseKeepsLines(stream);
      assert stream[..|stream|] == stream;
      stream := Closed(stream);
      if invalid || length != 0 || locations == [] {
        length := 0;
        return "";
      }
      summary := JoinLocations(locations);
      if omitted {
        summary := summary + "\nadditional secret locations omitted";
      }
    }
  }

  // ----- output of a process

  /** How far the open line agrees with the expected one: its length if it is a
      prefix, -1 if it is not. */
  function Agreement(open: string, expected: string): int {
    if open <= expected then |open| else -1
  }

  class BoundedProcessOutput {
    const limit: nat
    const terminalLine: string
    const metadata: SecretMetadata?
    var written: nat
    var overflow: bool
    var terminalLineOffset: int
    var terminalLineMatch: bool
    /** A callback for the overflow has been registered. */
    var registered: bool
    /** All writes so far. */
    ghost var chunks: seq<string>
    /** What the collector has on account: all accepted writes, less the open
        lines that earlier summaries have forgotten. */
    ghost var collected: string
    /** A summary has been asked for. */
    ghost var asked: bool

    ghost predicate Valid()
      reads this, metadata, if metadata == null then {} else {metadata.line}
    {
      && (overflow <==> |Concatenation(chunks)| > limit)
      && written == (if overflow then limit else |Concatenation(chunks)|)
      && (terminalLine == "" ==> !terminalLineMatch)
      && (terminalLine != "" && !overflow ==>
            && terminalLineOffset == Agreement(Residue(Concatenation(chunks)), terminalLine)
            && (terminalLineMatch <==> EndsWithLine(Concatenation(chunks), terminalLine)))
      && (metadata != null ==> metadata.Valid() && metadata.stream == collected)
      && (!overflow && !asked ==> collected == Concatenation(chunks))
    }

    /** The state that callbacks depend on, with no call due or made. */
    ghost function Account(): Notifier
      reads this`chunks, this`overflow, this`registered
    {
      Notifier(|Concatenation(chunks)|, overflow, registered, 0, 0)
    }

    constructor (limit: nat, terminalLine: string, metadata: SecretMetadata?)
      requires metadata != null ==> metadata.Valid() && metadata.stream == ""
      ensures Valid() && chunks == [] && collected == "" && !asked && !registered
      ensures this.limit == limit && this.terminalLine == terminalLine && this.metadata == metadata
    {
      this.limit, this.terminalLine, this.metadata := limit, terminalLine, metadata;
      written, overflow, terminalLineOffset, terminalLineMatch := 0, false, 0, false;
      chunks, collected, asked, registered := [], "", false, false;
    }

    /** Accounts for one write, whole or not at all. `first` says that this
        write is the one that overflows, `due` that it must call the callback. */
    method Write(value: string) returns (count: nat, first: bool, due: bool)
      requires Valid()
      modifies this, metadata, if metadata == null then {} else {metadata.line}
      ensures Valid() && chunks == old(chunks) + [value] && count == |value|
      ensures first <==> overflow && !old(overflow)
      ensures due <==> first && registered
      ensures registered == old(registered) && asked == old(asked)
      ensures !overflow ==> collected == old(collected) + value
      ensures Step(old(Account()), Wrote(|value|), limit) == Account().(due := if due then 1 else 0)
    {
      hide Residue, EndsWithLine, Agreement, Step, SecretMetadata.Valid;
      count := |value|;
      WriteIsStep(old(Account()), |value|, limit);
      ghost var before := Concatenation(chunks);
      assert (chunks + [value])[..|chunks|] == chunks;
      chunks := chunks + [value];
      if |value| > limit - written {
        written := limit;
        first := !overflow;
        overflow := true;
        due := first && registered;
        return;
      }
      first, due := false, false;
      written := written + |value|;
      Pass(value, before);
    }

    /** Passes an accepted write to the collector and to the recogniser. */
    method Pass(value: string, ghost before: string)
      requires metadata != null ==> metadata.Valid() && metadata.stream == collected
      requires terminalLine == "" ==> !terminalLineMatch
      requires terminalLine != "" && !overflow ==>
        && terminalLineOffset == Agreement(Residue(before), terminalLine)
        && (terminalLineMatch <==> EndsWithLine(before, terminalLine))
      modifies this`terminalLineOffset, this`terminalLineMatch, this`collected
      modifies metadata, if metadata == null then {} else {metadata.line}
      ensures collected == old(collected) + value
      ensures metadata != null ==>
        metadata.line == old(metadata.line) && metadata.Valid() && metadata.stream == collected
      ensures terminalLine == "" ==> !terminalLineMatch
      ensures terminalLine != "" && !overflow ==>
        && terminalLineOffset == Agreement(Residue(before + value), terminalLine)
        && (terminalLineMatch <==> EndsWithLine(before + value, terminalLine))
    {
      hide Residue, EndsWithLine, Agreement, SecretMetadata.Valid;
      collected := collected + value;
      if metadata != null {
        metadata.Write(value);
      }
      if terminalLine != "" {
        terminalLineOffset, terminalLineMatch := Scan(value, before);
      }
    }

    /** Feeds a write to the recogniser of the terminal line. */
    method Scan(value: string, ghost before: string) returns (offset: int, matched: bool)
      requires terminalLine != ""
      requires !overflow ==> terminalLineOffset == Agreement(Residue(before), terminalLine)
      requires !overflow ==> (terminalLineMatch <==> EndsWithLine(before, terminalLine))
      ensures !overflow ==> offset == Agreement(Residue(before + value), terminalLine)
      ensures !overflow ==> (matched <==> EndsWithLine(before + value, terminalLine))
    {
      offset, matched := terminalLineOffset, terminalLineMatch;
      assert before + value[..0] == before;
      for i := 0 to |value|
        invariant !overflow ==> offset == Agreement(Residue(before + value[..i]), terminalLine)
        invariant !overflow ==> (matched <==> EndsWithLine(before + value[..i], terminalLine))
      {
        ghost var stream := before + value[..i];
        StreamStep(stream, value[i]);
        AgreementStep(Residue(stream), value[i], terminalLine);
        assert before + value[..i + 1] == stream + [value[i]];
        assert (stream + [value[i]])[..|stream|] == stream;
        if value[i] == NEWLINE {
          matched := offset == |terminalLine|;
          offset := 0;
        } else {
          matched := false;
          if 0 <= offset < |terminalLine| && value[i] == terminalLine[offset] {
            offset := offset + 1;
          } else {
            offset := -1;
          }
        }
      }
      assert value[..|value|] == value;
    }

    /** Registers the callback; `due` says that it must be called at once. */
    method SetOverflowCallback() returns (due: bool)
      requires Valid()
      modifies this`registered
      ensures Valid() && registered && (due <==> overflow)
      ensures Step(old(Account()), Registered, limit) == Account().(due := if due then 1 else 0)
    {
      registered := true;
      due := overflow;
    }

    method DidOverflow() returns (r: bool)
      requires Valid()
      ensures r <==> |Concatenation(chunks)| > limit
    {
      r := overflow;
    }

    /** The process ended its output with the terminal line, and within the limit. */
    method MatchedTerminalLine() returns (r: bool)
      requires Valid()
      ensures r <==>
        terminalLine != "" && |Concatenation(chunks)| <= limit && EndsWithLine(Concatenation(chunks), terminalLine)
    {
      r := !overflow && terminalLineMatch;
    }

    /** The metadata summary of what is on account, and nothing after an overflow.
        The first time that is everything written; an open line is forgotten. */
    method FindingMetadata() returns (summary: string)
      requires Valid()
      modifies this`collected, this`asked, metadata
      ensures Valid() && asked && (metadata != null ==> metadata.line == old(metadata.line))
      ensures overflow || metadata == null ==> summary == "" && collected == old(collected)
      ensures !overflow && metadata != null ==>
        summary == Summary(old(collected)) && collected == Closed(old(collected))
      ensures !old(asked) && |Concatenation(chunks)| <= limit && metadata != null ==>
        summary == Summary(Concatenation(chunks))
    {
      asked := true;
      if overflow || metadata == null {
        return "";
      }
      collected := Closed(collected);
      summary := metadata.Summarize();
    }

    /** Asking twice: the second answer is that of the stream without its open line. */
    method FindTwice() returns (one: string, two: string)
      requires Valid() && !asked && metadata != null && !overflow
      modifies this`collected, this`asked, metadata
      ensures Valid()
      ensures one == Summary(Concatenation(chunks)) && two == Summary(Closed(Concatenation(chunks)))
    {
      one := FindingMetadata();
      two := FindingMetadata();
    }
  }

  lemma AgreementStep(open: string, c: char, expected: string)
    ensures var offset := Agreement(open, expected);
      Agreement(open + [c], expected) ==
        if 0 <= offset < |expected| && c == expected[offset] then offset + 1 else -1
    ensures Agreement(open, expected) == |expected| <==> open == expected
  {
    if open + [c] <= expected {
      assert expected[..|open|] == open;
    }
  }

  // ----- the overflow callback

  /** The shared state under the lock, and what happens outside it: calls of the
      callback that are due but not yet made, and calls made. */
  datatype Notifier = Notifier(total: nat, overflow: bool, registered: bool, due: nat, calls: nat)

  datatype Action = Wrote(size: nat) | Registered | Called

  /** One atomic step of some thread: a write's or the registration's critical
      section, or a call made after leaving one. */
  function Step(s: Notifier, action: Action, limit: nat): Notifier {
    match action
    case Wrote(size) =>
      var total := s.total + size;
      if total > limit && size > 0 then
        s.(total := total, overflow := true, due := s.due + if !s.overflow && s.registered then 1 else 0)
      else s.(total := total)
    case Registered =>
      s.(registered := true, due := s.due + if s.overflow then 1 else 0)
    case Called =>
      if s.due > 0 then s.(due := s.due - 1, calls := s.calls + 1) else s
  }

  function RunActions(actions: seq<Action>, limit: nat): Notifier {
    if actions == [] then Notifier(0, false, false, 0, 0)
    else Step(RunActions(actions[..|actions| - 1], limit), actions[|actions| - 1], limit)
  }

  function Registrations(actions: seq<Action>): nat {
    if actions == [] then 0
    else Registrations(actions[..|actions| - 1]) + if actions[|actions| - 1].Registered? then 1 else 0
  }

  function TotalWritten(actions: seq<Action>): nat {
    if actions == [] then 0
    else TotalWritten(actions[..|actions| - 1]) + if actions[|actions| - 1].Wrote? then actions[|actions| - 1].size
      else 0
  }

  /** A write overflows when it passes the limit, and again has something to say
      only while it is the first to do so. */
  lemma WriteIsStep(s: Notifier, size: nat, limit: nat)
    requires s.overflow <==> s.total > limit
    ensures Step(s, Wrote(size), limit) ==
      s.(total := s.total + size, overflow := s.total + size > limit,
         due := s.due + if s.total + size > limit && !s.overflow && s.registered then 1 else 0)
  {
  }

  /** Over every interleaving of writes with one registration, the callback is
      called or due exactly once if the limit was exceeded, and otherwise never. */
  lemma {:induction false} CallbackFiresOnce(actions: seq<Action>, limit: nat)
    requires Registrations(actions) <= 1
    ensures var s := RunActions(actions, limit);
      && s.total == TotalWritten(actions) && (s.overflow <==> TotalWritten(actions) > limit)
      && (s.registered <==> Registrations(actions) == 1)
      && s.calls + s.due == if s.overflow && s.registered then 1 else 0
  {
    if actions == [] {
    } else {
      CallbackFiresOnce(actions[..|actions| - 1], limit);
    }
  }

  /** A callback that is due is made by the next call. */
  lemma CallIsMade(actions: seq<Action>, limit: nat)
    requires Registrations(actions) <= 1
    ensures var s := RunActions(actions + [Called], limit);
      s.due == 0 && s.calls == if TotalWritten(actions) > limit && Registrations(actions) == 1 then 1 else 0
  {
    CallbackFiresOnce(actions, limit);
    assert (actions + [Called])[..|actions|] == actions;
  }
}
