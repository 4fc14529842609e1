/** The lines that are recognised as pins, written out as their parts. */
module PinGrammar {
  import opened Wrappers
  import opened Pins

  ghost predicate Blanks(s: string) {
    forall c | c in s :: c == ' ' || c == '\t'
  }

  ghost predicate Digits(s: string) {
    s != "" && forall c | c in s :: c in "0123456789"
  }

  ghost predicate LowerHex(s: string, length: nat) {
    |s| == length && forall c | c in s :: c in "0123456789abcdef"
  }

  /** What may be pinned: a version of three numbers, a digest, or a commit. */
  ghost predicate Pinnable(kind: Kind, value: string) {
    match kind
    case Version =>
      exists major, minor, patch | Digits(major) && Digits(minor) && Digits(patch) ::
        value == "v" + (major + "." + (minor + "." + patch))
    case Digest => LowerHex(value, 64)
    case Commit => LowerHex(value, 40)
  }

  /** Blanks, and where comments are allowed one after at least one blank. */
  ghost predicate Ending(tail: string, commented: bool) {
    Blanks(tail) || (commented && exists gap, comment | gap != "" && Blanks(gap) && '\r' !in comment ::
                       tail == gap + ("#" + comment))
  }

  /** The line of a pin, in its parts: what stands before the key, between the key
      and its path, the value, and the ending. */
  ghost predicate PinLine(p: Pin, line: string, before: string, between: string, value: string, ending: string) {
    && line == before + (p.key + (between + (p.path + (value + ending))))
    && Blanks(before) && (before != "" ==> p.indented) && Blanks(between)
    && Pinnable(p.kind, value) && Ending(ending, p.commented)
  }

  lemma {:induction false} DigitRunIs(s: string, n: nat)
    requires n <= |s| && (forall i | 0 <= i < n :: '0' <= s[i] <= '9') && (n < |s| ==> !('0' <= s[n] <= '9'))
    ensures DigitRun(s) == n
    decreases n
  {
    if n > 0 {
      DigitRunIs(s[1..], n - 1);
    }
  }

  lemma {:induction false} DigitRunStops(s: string)
    ensures DigitRun(s) < |s| ==> !('0' <= s[DigitRun(s)] <= '9')
  {
    if s != [] && '0' <= s[0] <= '9' {
      DigitRunStops(s[1..]);
    }
  }

  lemma DigitsAre(s: string)
    ensures Digits(s) <==> s != "" && forall i | 0 <= i < |s| :: '0' <= s[i] <= '9'
  {
    forall c: char ensures c in "0123456789" <==> '0' <= c <= '9' {
    }
    forall i | 0 <= i < |s| ensures s[i] in s {
    }
  }

  lemma NumberIsExact(s: string, rest: string)
    ensures AfterNumber(s) == Some(rest) <==> exists number | Digits(number) :: s == number + ("." + rest)
  {
    DigitRunStops(s);
    if AfterNumber(s) == Some(rest) {
      var n := DigitRun(s);
      DigitsAre(s[..n]);
      assert s == s[..n] + ("." + rest);
    }
    if number :| Digits(number) && s == number + ("." + rest) {
      DigitsAre(number);
      assert s[|number|] == '.' && s[|number| + 1..] == rest;
      DigitRunIs(s, |number|);
    }
  }

  lemma VersionIsExact(value: string)
    ensures IsVersion(value) <==> Pinnable(Version, value)
  {
    hide AfterNumber, DigitRun, Digits;
    if IsVersion(value) {
      var minor := AfterNumber(value[1..]).value;
      var patch := AfterNumber(minor).value;
      NumberIsExact(value[1..], minor);
      NumberIsExact(minor, patch);
      var a :| Digits(a) && value[1..] == a + ("." + minor);
      var b :| Digits(b) && minor == b + ("." + patch);
      AllDigits(patch);
      assert value == "v" + (a + ("." + minor)) == "v" + (a + "." + (b + "." + patch));
    }
    if a, b, c :| Digits(a) && Digits(b) && Digits(c) && value == "v" + (a + "." + (b + "." + c)) {
      var minor := b + ("." + c);
      assert value[1..] == a + ("." + minor);
      NumberIsExact(value[1..], minor);
      NumberIsExact(minor, c);
      AllDigits(c);
    }
  }

  lemma AllDigits(s: string)
    ensures s != "" && DigitRun(s) == |s| <==> Digits(s)
  {
    DigitsAre(s);
    if Digits(s) {
      DigitRunIs(s, |s|);
    }
  }

  lemma HexIsExact(s: string, length: nat)
    ensures (|s| == length && forall c | c in s :: Hexadecimal(c)) <==> LowerHex(s, length)
  {
    forall c: char ensures Hexadecimal(c) <==> c in "0123456789abcdef" {
      HexDigit(c);
    }
  }

  lemma HexDigit(c: char)
    ensures Hexadecimal(c) <==> c in "0123456789abcdef"
  {
    var all := "0123456789abcdef";
    if '0' <= c <= '9' {
      assert all[c as int - '0' as int] == c;
    } else if 'a' <= c <= 'f' {
      assert all[10 + (c as int - 'a' as int)] == c;
    }
  }

  lemma AcceptsIsExact(kind: Kind, value: string)
    ensures Accepts(kind, value) <==> Pinnable(kind, value)
  {
    VersionIsExact(value);
    HexIsExact(value, 64);
    HexIsExact(value, 40);
  }

  // ----- the line

  lemma BlanksAre(s: string)
    ensures Blanks(s) <==> forall i | 0 <= i < |s| :: Blank(s[i])
  {
    forall i | 0 <= i < |s| ensures s[i] in s {
    }
  }

  /** Blanks before something that is not blank are all the blanks there are. */
  lemma BlanksEnd(blanks: string, rest: string)
    requires Blanks(blanks) && (rest != "" ==> !Blank(rest[0]))
    ensures BlankRun(blanks + rest) == |blanks|
    ensures (blanks + rest)[|blanks|..] == rest
  {
    BlanksAre(blanks);
    BlankRunIs(blanks + rest, |blanks|);
  }

  lemma RunIsBlanks(s: string)
    ensures Blanks(s[..BlankRun(s)])
  {
    BlanksAre(s[..BlankRun(s)]);
  }

  lemma TailIsEnding(p: Pin, tail: string)
    ensures Tail(p, tail) && (tail == "" || Blank(tail[0])) <==> Ending(tail, p.commented)
  {
    var n := BlankRun(tail);
    RunIsBlanks(tail);
    BlanksAre(tail);
    if n == |tail| {
      assert tail[..n] == tail;
    } else if Tail(p, tail) {
      assert tail == tail[..n] + ("#" + tail[n + 1..]);
    }
    if p.commented {
      forall gap, comment | gap != "" && Blanks(gap) && '\r' !in comment && tail == gap + ("#" + comment)
        ensures Tail(p, tail) && Blank(tail[0])
      {
        BlanksEnd(gap, "#" + comment);
        BlanksAre(gap);
        assert '\r' !in gap by {
          BlanksHaveNoReturn(gap);
        }
      }
    }
  }

  lemma BlanksHaveNoReturn(s: string)
    requires Blanks(s)
    ensures '\r' !in s
  {
  }

  lemma WordThenTail(value: string, tail: string)
    requires value != "" && Solid(value) && (tail == "" || Blank(tail[0]))
    ensures WordRun(value + tail) == |value| && (value + tail)[..|value|] == value && (value + tail)[|value|..] == tail
  {
    WordEnds(value, tail);
  }

  lemma Suffix(line: string, k: nat, first: string, rest: string)
    requires k <= |line| && line[k..] == first + rest
    ensures k + |first| <= |line| && line[k + |first|..] == rest && first <= line[k..]
  {
    assert line[k + |first|..] == line[k..][|first|..];
  }

  lemma KeyOf(p: Pin, line: string, before: string, rest: string)
    requires WellShaped(p) && line == before + (p.key + rest)
    requires Blanks(before) && (before != "" ==> p.indented)
    ensures HasKey(p, line) && KeyAt(p, line) == |before| && line[|before| + |p.key|..] == rest
  {
    hide BlankRun, Blanks, Blank;
    KeyIsFirst(p, p.key + rest, rest);
    BlanksEnd(before, p.key + rest);
    Suffix(line, |before|, p.key, rest);
  }

  lemma PathOf(p: Pin, line: string, between: string, rest: string)
    requires HasKey(p, line) && KeyAt(p, line) + |p.key| <= |line|
    requires line[KeyAt(p, line) + |p.key|..] == between + (p.path + rest)
    requires Blanks(between) && (p.path + rest != "" ==> !Blank((p.path + rest)[0]))
    ensures HasPath(p, line) && line[PathAt(p, line) + |p.path|..] == rest
    ensures ValueStart(p, line) == Some(PathAt(p, line) + |p.path|)
    ensures PathAt(p, line) == KeyAt(p, line) + |p.key| + |between|
  {
    hide BlankRun, Blanks, Blank, HasKey, KeyAt;
    var key := KeyAt(p, line) + |p.key|;
    BlanksEnd(between, p.path + rest);
    Suffix(line, key, between, p.path + rest);
    Suffix(line, key + |between|, p.path, rest);
  }

  lemma ValueOf(p: Pin, line: string, start: nat, value: string, ending: string)
    requires ValueStart(p, line) == Some(start) && line[start..] == value + ending
    requires Accepts(p.kind, value) && Tail(p, ending) && (ending == "" || Blank(ending[0]))
    ensures Matches(p, line) && Value(p, line) == value
  {
    hide Accepts, Tail, Blank, ValueStart, WordRun, Solid;
    ValueIsWord(p.kind, value);
    WordThenTail(value, ending);
    Suffix(line, start, value, ending);
  }

  /** Such a line is recognised, with this value. */
  lemma LineMatches(p: Pin, line: string, before: string, between: string, value: string, ending: string)
    requires WellShaped(p) && PinLine(p, line, before, between, value, ending)
    ensures Matches(p, line) && Value(p, line) == value
  {
    hide Accepts, Pinnable, Ending, Tail, Blanks, Solid, Blank, HasKey, KeyAt, Matches, Value, ValueStart, PathAt;
    AcceptsIsExact(p.kind, value);
    ValueIsWord(p.kind, value);
    TailIsEnding(p, ending);
    KeyOf(p, line, before, between + (p.path + (value + ending)));
    FirstOfPath(p, value, ending);
    PathOf(p, line, between, value + ending);
    ValueOf(p, line, PathAt(p, line) + |p.path|, value, ending);
  }

  /** Rewriting such a line keeps everything before the value. */
  lemma RewrittenParts(p: Pin, line: string, before: string, between: string, value: string, ending: string,
                       text: string)
    requires WellShaped(p) && PinLine(p, line, before, between, value, ending)
    ensures Rewritten(p, line, text) == before + (p.key + (between + (p.path + text)))
  {
    hide Accepts, Pinnable, Ending, Tail, Blanks, Solid, Blank, HasKey, KeyAt, Matches, Value, ValueStart, PathAt;
    LineMatches(p, line, before, between, value, ending);
    AcceptsIsExact(p.kind, value);
    ValueIsWord(p.kind, value);
    KeyOf(p, line, before, between + (p.path + (value + ending)));
    FirstOfPath(p, value, ending);
    PathOf(p, line, between, value + ending);
    Front(before, p.key, between, p.path, value + ending, text);
  }

  lemma Front(a: string, b: string, c: string, d: string, rest: string, text: string)
    ensures var all := a + (b + (c + (d + rest)));
      all[..|a| + |b| + |c| + |d|] + text == a + (b + (c + (d + text)))
  {
    var all := a + (b + (c + (d + rest)));
    assert all[..|a| + |b| + |c| + |d|] == a + (b + (c + d));
    assert (a + (b + (c + d))) + text == a + (b + (c + (d + text)));
  }

  lemma FirstOfPath(p: Pin, value: string, ending: string)
    requires WellShaped(p) && value != "" && Solid(value)
    ensures !Blank((p.path + (value + ending))[0])
  {
    FirstOfSolid(value);
  }

  lemma KeyIsFirst(p: Pin, a: string, b: string)
    requires WellShaped(p) && a == p.key + b
    ensures a != "" && !Blank(a[0])
  {
  }

  lemma NothingBlank()
    ensures Blanks("")
  {
  }

  /** What recognition has looked at. */
  lemma MatchFacts(p: Pin, line: string)
    requires Matches(p, line)
    ensures var key, path, start, value :=
        KeyAt(p, line), PathAt(p, line), PathAt(p, line) + |p.path|, Value(p, line);
      && key + |p.key| <= path && path == key + |p.key| + BlankRun(line[key + |p.key|..])
      && p.key <= line[key..] && p.path <= line[path..] && start <= |line| && value <= line[start..]
      && key == (if p.indented then BlankRun(line) else 0) && Accepts(p.kind, value)
      && Tail(p, line[start + |value|..])
      && (start + |value| < |line| ==> Blank(line[start + |value|]))
  {
    hide Accepts, Tail, BlankRun, WordRun, Blank;
    EndsBlank(line[PathAt(p, line) + |p.path|..]);
  }

  lemma BeforeKey(p: Pin, line: string)
    requires Matches(p, line)
    ensures Blanks(line[..KeyAt(p, line)]) && (line[..KeyAt(p, line)] != "" ==> p.indented)
  {
    hide Blanks, Accepts, Tail, BlankRun;
    RunIsBlanks(line);
    NothingBlank();
    assert line[..0] == "";
  }

  lemma BeforePath(p: Pin, line: string)
    requires Matches(p, line)
    ensures KeyAt(p, line) + |p.key| <= PathAt(p, line) && Blanks(line[KeyAt(p, line) + |p.key|..PathAt(p, line)])
  {
    hide Blanks, Accepts, Tail, BlankRun, Matches;
    MatchFacts(p, line);
    RunIsBlanks(line[KeyAt(p, line) + |p.key|..]);
    BetweenIsRun(line, KeyAt(p, line) + |p.key|, PathAt(p, line));
  }

  lemma AfterValue(p: Pin, line: string)
    requires Matches(p, line)
    ensures var end := PathAt(p, line) + |p.path| + |Value(p, line)|;
      end <= |line| && Ending(line[end..], p.commented) && Pinnable(p.kind, Value(p, line))
  {
    hide Ending, Pinnable, Accepts, Tail, BlankRun, Blank;
    MatchFacts(p, line);
    var end := PathAt(p, line) + |p.path| + |Value(p, line)|;
    TailIsEnding(p, line[end..]);
    AcceptsIsExact(p.kind, Value(p, line));
  }

  /** The parts of a pin's line stand at these places. */
  ghost predicate PartsAt(p: Pin, line: string, key: nat, path: nat, value: string) {
    && key <= |line| && p.key <= line[key..] && key + |p.key| <= path <= |line| && p.path <= line[path..]
    && path + |p.path| <= |line| && value <= line[path + |p.path|..] && path + |p.path| + |value| <= |line|
    && Blanks(line[..key]) && (line[..key] != "" ==> p.indented) && Blanks(line[key + |p.key|..path])
    && Pinnable(p.kind, value) && Ending(line[path + |p.path| + |value|..], p.commented)
  }

  lemma PartsAreThere(p: Pin, line: string)
    requires Matches(p, line)
    ensures PartsAt(p, line, KeyAt(p, line), PathAt(p, line), Value(p, line))
  {
    hide Accepts, Pinnable, Ending, Tail, Blanks, Blank, BlankRun, WordRun;
    BeforeKey(p, line);
    BeforePath(p, line);
    AfterValue(p, line);
    MatchFacts(p, line);
  }

  lemma LineOfParts(p: Pin, line: string, key: nat, path: nat, value: string)
    requires PartsAt(p, line, key, path, value)
    ensures PinLine(p, line, line[..key], line[key + |p.key|..path], value, line[path + |p.path| + |value|..])
  {
    hide Blanks, Pinnable, Ending;
    Parts(line, key, p.key, path, p.path, value, line[..key], line[key + |p.key|..path],
          line[path + |p.path| + |value|..]);
  }

  /** A line that is recognised has these parts. */
  lemma MatchesLine(p: Pin, line: string) returns (before: string, between: string, ending: string)
    requires Matches(p, line)
    ensures PinLine(p, line, before, between, Value(p, line), ending)
  {
    hide Accepts, Pinnable, Ending, Tail, Blanks, Blank, BlankRun, WordRun, PinLine;
    PartsAreThere(p, line);
    var key, path, value := KeyAt(p, line), PathAt(p, line), Value(p, line);
    hide KeyAt, PathAt, Value, HasKey, HasPath, ValueStart, Matches;
    LineOfParts(p, line, key, path, value);
    before, between, ending := line[..key], line[key + |p.key|..path], line[path + |p.path| + |value|..];
  }

  lemma BetweenIsRun(line: string, from: nat, to: nat)
    requires from <= |line| && to == from + BlankRun(line[from..])
    ensures to <= |line| && line[from..to] == line[from..][..BlankRun(line[from..])]
  {
  }

  /** A line is what it is made of. */
  lemma Parts(line: string, at: nat, first: string, next: nat, second: string, third: string,
              before: string, between: string, rest: string)
    requires at <= |line| && first <= line[at..] && at + |first| <= next <= |line| && second <= line[next..]
    requires next + |second| <= |line| && third <= line[next + |second|..]
    requires before == line[..at] && between == line[at + |first|..next]
    requires rest == line[next + |second| + |third|..]
    ensures line == before + (first + (between + (second + (third + rest))))
    ensures line[next + |second|..] == third + rest
  {
    assert line[next + |second|..] == third + rest;
    assert line[next..] == second + line[next + |second|..];
    assert line[at + |first|..] == between + line[next..];
    assert line[at..] == first + line[at + |first|..];
    assert line == before + line[at..];
  }

  lemma EndsBlank(rest: string)
    ensures WordRun(rest) < |rest| ==> Blank(rest[WordRun(rest)])
  {
  }

  /** A line is a pin's line, with this value, exactly if it is made of these parts. */
  lemma MatchingIsExact(p: Pin, line: string, value: string)
    requires WellShaped(p)
    ensures Matches(p, line) && Value(p, line) == value <==>
      exists before, between, ending :: PinLine(p, line, before, between, value, ending)
  {
    hide PinLine, Matches, Value;
    if Matches(p, line) {
      var before, between, ending := MatchesLine(p, line);
    }
    if before, between, ending :| PinLine(p, line, before, between, value, ending) {
      LineMatches(p, line, before, between, value, ending);
    }
  }

  /** The four pins, by what stands in their lines. */
  lemma ThePins()
    ensures CONFIG_VERSION == Pin(false, "tool_version:", "", Version, false) && WellShaped(CONFIG_VERSION)
    ensures CONFIG_DIGEST == Pin(false, "tool_checksums_sha256:", "", Digest, false) && WellShaped(CONFIG_DIGEST)
    ensures WORKFLOW_USE == Pin(true, "uses:", "faustbrian/" + "go-library-tools/" + ".github/workflows/" +
                                "library-ci.yml@", Commit, true) && WellShaped(WORKFLOW_USE)
    ensures WORKFLOW_INPUT == Pin(true, "tooling_sha:", "", Commit, false) && WellShaped(WORKFLOW_INPUT)
  {
    assert WORKFLOW_USE.path[0] == 'f';
  }

  // ----- the pins of a file

  ghost predicate IsPin(p: Pin, line: string, value: string) {
    exists before, between, ending :: PinLine(p, line, before, between, value, ending)
  }

  /** One line of the file is the pin's, with this value, and no other line is. */
  ghost predicate Only(p: Pin, lines: seq<string>, value: string) {
    exists i | 0 <= i < |lines| && IsPin(p, lines[i], value) ::
      forall j, other | 0 <= j < |lines| && j != i :: !IsPin(p, lines[j], other)
  }

  ghost predicate NoPin(p: Pin, lines: seq<string>) {
    forall i, value | 0 <= i < |lines| :: !IsPin(p, lines[i], value)
  }

  lemma PinIsMatch(p: Pin, line: string)
    requires WellShaped(p)
    ensures forall value :: IsPin(p, line, value) <==> Matches(p, line) && Value(p, line) == value
  {
    hide PinLine, Accepts, Tail, Value;
    forall value ensures IsPin(p, line, value) <==> Matches(p, line) && Value(p, line) == value {
      MatchingIsExact(p, line, value);
    }
  }

  lemma {:induction false} ValuesAreMatches(p: Pin, lines: seq<string>)
    requires WellShaped(p)
    ensures Values(p, lines) == [] <==> NoPin(p, lines)
    ensures forall value :: Values(p, lines) == [value] <==> Only(p, lines, value)
  {
    hide IsPin, Accepts, Tail, Value, Only, NoPin;
    if lines == [] {
      NoLines(p, lines);
    } else {
      ValuesAreMatches(p, lines[1..]);
      NoPinFirst(p, lines);
      forall value { OnlyFirst(p, lines, value); }
      PinIsMatch(p, lines[0]);
      if Matches(p, lines[0]) {
        assert IsPin(p, lines[0], Value(p, lines[0]));
        assert Values(p, lines) == [Value(p, lines[0])] + Values(p, lines[1..]);
        forall value { FirstIsAll(Value(p, lines[0]), Values(p, lines[1..]), value); }
      } else {
        assert Values(p, lines) == [] + Values(p, lines[1..]);
      }
    }
  }

  lemma NoLines(p: Pin, lines: seq<string>)
    requires lines == []
    ensures NoPin(p, lines) && forall value :: !Only(p, lines, value)
  {
  }

  lemma FirstIsAll(first: string, rest: seq<string>, value: string)
    ensures [first] + rest == [value] <==> first == value && rest == []
  {
    if [first] + rest == [value] {
      assert |[first] + rest| == 1 && ([first] + rest)[0] == first;
    }
  }

  lemma NoPinFirst(p: Pin, lines: seq<string>)
    requires lines != []
    ensures NoPin(p, lines) <==> NoPin(p, lines[1..]) && forall value :: !IsPin(p, lines[0], value)
  {
    hide IsPin;
    assert forall i | 0 < i < |lines| :: lines[i] == lines[1..][i - 1];
  }

  lemma OnlyFirst(p: Pin, lines: seq<string>, value: string)
    requires lines != []
    ensures Only(p, lines, value) <==>
      || (IsPin(p, lines[0], value) && NoPin(p, lines[1..]))
      || ((forall other :: !IsPin(p, lines[0], other)) && Only(p, lines[1..], value))
  {
    hide IsPin;
    var rest := lines[1..];
    assert forall i | 0 < i < |lines| :: lines[i] == rest[i - 1];
    if IsPin(p, lines[0], value) && NoPin(p, rest) {
      assert forall j | 0 < j < |lines| :: lines[j] == rest[j - 1];
    }
    if (forall other :: !IsPin(p, lines[0], other)) && Only(p, rest, value) {
      var i :| 0 <= i < |rest| && IsPin(p, rest[i], value)
        && forall j, other | 0 <= j < |rest| && j != i :: !IsPin(p, rest[j], other);
      assert lines[i + 1] == rest[i];
    }
    if Only(p, lines, value) {
      var i :| 0 <= i < |lines| && IsPin(p, lines[i], value)
        && forall j, other | 0 <= j < |lines| && j != i :: !IsPin(p, lines[j], other);
      if i > 0 {
        assert rest[i - 1] == lines[i];
        forall j, other | 0 <= j < |rest| && j != i - 1 ensures !IsPin(p, rest[j], other) {
          assert rest[j] == lines[j + 1];
        }
      } else {
        forall j, other | 0 <= j < |rest| ensures !IsPin(p, rest[j], other) {
          assert rest[j] == lines[j + 1];
        }
      }
    }
  }
}
