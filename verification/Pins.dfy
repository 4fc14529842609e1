/** The pin lines of a consumer repository (internal/upgrade/upgrade.go): how a
    line is recognised, and what replacing its pinned value leaves unchanged. The
    source's patterns are anchored to lines, so files are sequences of lines. */
module Pins {
  import opened Wrappers

  datatype Kind = Version | Digest | Commit

  /** `indented` allows blanks first; `path` follows the key; `commented` allows a
      comment after the value. */
  datatype Pin = Pin(indented: bool, key: string, path: string, kind: Kind, commented: bool)

  const CONFIG_VERSION := Pin(false, "tool_version:", "", Version, false)
  const CONFIG_DIGEST := Pin(false, "tool_checksums_sha256:", "", Digest, false)
  const WORKFLOW_USE := Pin(true, "uses:", REFERENCE, Commit, true)
  const REFERENCE := "faustbrian/" + "go-library-tools/" + ".github/workflows/" + "library-ci.yml@"
  const WORKFLOW_INPUT := Pin(true, "tooling_sha:", "", Commit, false)

  // ----- recognising a line

  predicate Blank(c: char) { c == ' ' || c == '\t' }

  predicate Hexadecimal(c: char) { '0' <= c <= '9' || 'a' <= c <= 'f' }

  function BlankRun(s: string): (n: nat)
    ensures n <= |s| && (forall i | 0 <= i < n :: Blank(s[i])) && (n < |s| ==> !Blank(s[n]))
  {
    if s != [] && Blank(s[0]) then 1 + BlankRun(s[1..]) else 0
  }

  function WordRun(s: string): (n: nat)
    ensures n <= |s| && (forall i | 0 <= i < n :: !Blank(s[i])) && (n < |s| ==> Blank(s[n]))
  {
    if s != [] && !Blank(s[0]) then 1 + WordRun(s[1..]) else 0
  }

  function DigitRun(s: string): (n: nat)
    ensures n <= |s| && forall i | 0 <= i < n :: '0' <= s[i] <= '9'
  {
    if s != [] && '0' <= s[0] <= '9' then 1 + DigitRun(s[1..]) else 0
  }

  /** `[0-9]+`, a dot, and what follows. */
  function AfterNumber(s: string): Option<string> {
    var n := DigitRun(s);
    if 0 < n < |s| && s[n] == '.' then Some(s[n + 1..]) else None
  }

  predicate IsVersion(s: string) {
    s != [] && s[0] == 'v' &&
    match AfterNumber(s[1..])
    case None => false
    case Some(minor) =>
      match AfterNumber(minor)
      case None => false
      case Some(patch) => patch != [] && DigitRun(patch) == |patch|
  }

  predicate Accepts(kind: Kind, value: string) {
    match kind
    case Version => IsVersion(value)
    case Digest => |value| == 64 && forall c | c in value :: Hexadecimal(c)
    case Commit => |value| == 40 && forall c | c in value :: Hexadecimal(c)
  }

  function KeyAt(p: Pin, line: string): (n: nat)
    ensures n <= |line|
  {
    if p.indented then BlankRun(line) else 0
  }

  predicate HasKey(p: Pin, line: string) { p.key <= line[KeyAt(p, line)..] }

  function PathAt(p: Pin, line: string): (n: nat)
    requires HasKey(p, line)
    ensures KeyAt(p, line) + |p.key| <= n <= |line|
  {
    var after := KeyAt(p, line) + |p.key|;
    after + BlankRun(line[after..])
  }

  predicate HasPath(p: Pin, line: string)
    requires HasKey(p, line)
  {
    p.path <= line[PathAt(p, line)..]
  }

  /** Where the pinned value starts, if the line has the pin's key and path. */
  function ValueStart(p: Pin, line: string): (start: Option<nat>)
    ensures start.Some? ==> start.value <= |line|
  {
    if HasKey(p, line) && HasPath(p, line) then Some(PathAt(p, line) + |p.path|) else None
  }

  predicate Tail(p: Pin, tail: string) {
    var n := BlankRun(tail);
    n == |tail| || (p.commented && n > 0 && tail[n] == '#' && '\r' !in tail)
  }

  function Value(p: Pin, line: string): string
    requires ValueStart(p, line).Some?
  {
    var rest := line[ValueStart(p, line).value..];
    rest[..WordRun(rest)]
  }

  predicate Matches(p: Pin, line: string) {
    && ValueStart(p, line).Some?
    && Accepts(p.kind, Value(p, line))
    && Tail(p, line[ValueStart(p, line).value + |Value(p, line)|..])
  }

  function Rewritten(p: Pin, line: string, text: string): string {
    if Matches(p, line) then line[..ValueStart(p, line).value] + text else line
  }

  // ----- a rewritten line is the same pin with another value

  ghost predicate WellShaped(p: Pin) {
    p.key != "" && !Blank(p.key[0]) && (p.path != "" ==> !Blank(p.path[0]))
  }

  /** Every text that is put in a pin: an acceptable value, and nothing or a comment after it. */
  ghost predicate Fits(p: Pin, value: string, tail: string) {
    Accepts(p.kind, value) && Tail(p, tail) && (tail == "" || Blank(tail[0]))
  }

  lemma ValueIsWord(kind: Kind, value: string)
    requires Accepts(kind, value)
    ensures value != "" && Solid(value)
  {
    hide IsVersion;
    if kind == Version {
      VersionIsWord(value);
    }
  }

  ghost predicate Solid(s: string) {
    forall c | c in s :: !Blank(c) && c != '\n' && c != '\r'
  }

  lemma VersionIsWord(value: string)
    requires IsVersion(value)
    ensures value != "" && Solid(value)
  {
    hide AfterNumber, Solid;
    var minor := AfterNumber(value[1..]).value;
    DigitsAreSolid(AfterNumber(minor).value);
    NumberIsSolid(minor);
    NumberIsSolid(value[1..]);
    OneMoreSolid(value);
  }

  lemma OneMoreSolid(s: string)
    requires s != "" && s[0] == 'v' && Solid(s[1..])
    ensures Solid(s)
  {
    assert s == ['v'] + s[1..];
  }

  lemma DigitsAreSolid(s: string)
    requires DigitRun(s) == |s|
    ensures Solid(s)
  {
  }

  lemma NumberIsSolid(s: string)
    requires AfterNumber(s).Some? && Solid(AfterNumber(s).value)
    ensures Solid(s)
  {
    var n := DigitRun(s);
    assert s == s[..n] + ['.'] + AfterNumber(s).value;
  }

  lemma BlankRunIs(s: string, n: nat)
    requires n <= |s| && (forall i | 0 <= i < n :: Blank(s[i])) && (n < |s| ==> !Blank(s[n]))
    ensures BlankRun(s) == n
  {
  }

  lemma WordRunIs(s: string, n: nat)
    requires n <= |s| && (forall i | 0 <= i < n :: !Blank(s[i])) && (n < |s| ==> Blank(s[n]))
    ensures WordRun(s) == n
  {
  }

  lemma SameUpTo(s: string, t: string, n: nat, from: nat, word: string)
    requires n <= |s| && n <= |t| && t[..n] == s[..n]
    requires from + |word| <= n && word <= s[from..]
    ensures word <= t[from..]
  {
    assert s[from..][..|word|] == s[..n][from..from + |word|];
    assert t[from..][..|word|] == t[..n][from..from + |word|];
  }

  lemma SameBlankRun(s: string, t: string, n: nat, from: nat)
    requires n <= |s| && n < |t| && t[..n] == s[..n]
    requires from <= n && from + BlankRun(s[from..]) <= n && !Blank(t[from + BlankRun(s[from..])])
    ensures BlankRun(t[from..]) == BlankRun(s[from..])
  {
    var k := BlankRun(s[from..]);
    forall i | 0 <= i < k ensures Blank(t[from..][i]) {
      assert t[from..][i] == t[..n][from + i] == s[..n][from + i] == s[from..][i];
    }
    BlankRunIs(t[from..], k);
  }

  lemma KeyIsShared(p: Pin, s: string, t: string, n: nat)
    requires WellShaped(p) && HasKey(p, s) && KeyAt(p, s) + |p.key| <= n <= |s|
    requires n < |t| && t[..n] == s[..n]
    ensures KeyAt(p, t) == KeyAt(p, s) && HasKey(p, t)
  {
    hide BlankRun, Blank;
    var key := KeyAt(p, s);
    SameUpTo(s, t, n, key, p.key);
    assert t[key] == t[key..][0] == p.key[0];
    if p.indented {
      assert s[0..] == s && t[0..] == t;
      SameBlankRun(s, t, n, 0);
    }
  }

  lemma PathIsShared(p: Pin, s: string, t: string, n: nat)
    requires WellShaped(p) && HasKey(p, s) && HasPath(p, s) && n == PathAt(p, s) + |p.path|
    requires n < |t| && t[..n] == s[..n] && !Blank(t[n])
    requires HasKey(p, t) && KeyAt(p, t) == KeyAt(p, s)
    ensures PathAt(p, t) == PathAt(p, s) && HasPath(p, t)
  {
    hide BlankRun, Blank, HasKey, KeyAt;
    var path := PathAt(p, s);
    SameUpTo(s, t, n, path, p.path);
    assert p.path != "" ==> t[path] == t[path..][0] == p.path[0];
    SameBlankRun(s, t, n, KeyAt(p, s) + |p.key|);
  }

  /** Everything up to the value decides where the value starts. */
  lemma StartIsShared(p: Pin, s: string, t: string, start: nat)
    requires WellShaped(p) && ValueStart(p, s) == Some(start)
    requires start < |t| && t[..start] == s[..start] && !Blank(t[start])
    ensures ValueStart(p, t) == Some(start)
  {
    hide HasKey, HasPath, KeyAt, PathAt, Blank, WellShaped;
    KeyIsShared(p, s, t, start);
    PathIsShared(p, s, t, start);
  }

  lemma Splice(before: string, value: string, tail: string)
    requires value != ""
    ensures var all := before + (value + tail);
      && all[..|before|] == before && all[|before|..] == value + tail
      && all[|before| + |value|..] == tail && all[|before|] == value[0] && (value + tail)[..|value|] == value
  {
  }

  lemma FirstOfSolid(s: string)
    requires s != "" && Solid(s)
    ensures !Blank(s[0])
  {
  }

  lemma WordEnds(value: string, tail: string)
    requires Solid(value) && (tail == "" || Blank(tail[0]))
    ensures WordRun(value + tail) == |value|
  {
    WordRunIs(value + tail, |value|);
  }

  lemma RewrittenMatches(p: Pin, line: string, value: string, tail: string)
    requires WellShaped(p) && Matches(p, line) && Fits(p, value, tail)
    ensures var next := Rewritten(p, line, value + tail);
      Matches(p, next) && ValueStart(p, next) == ValueStart(p, line) && Value(p, next) == value
  {
    hide Tail, Accepts, Blank, WellShaped, ValueStart, WordRun, Solid;
    var start := ValueStart(p, line).value;
    var next := line[..start] + (value + tail);
    ValueIsWord(p.kind, value);
    Splice(line[..start], value, tail);
    FirstOfSolid(value);
    StartIsShared(p, line, next, start);
    WordEnds(value, tail);
  }

  lemma RewrittenTwice(p: Pin, line: string, value: string, tail: string, text: string)
    requires WellShaped(p) && Fits(p, value, tail)
    ensures Rewritten(p, Rewritten(p, line, value + tail), text) == Rewritten(p, line, text)
  {
    if Matches(p, line) {
      RewrittenMatches(p, line, value, tail);
      var start := ValueStart(p, line).value;
      assert (line[..start] + (value + tail))[..start] == line[..start];
    }
  }

  /** No line can be a line of both pins. */
  ghost predicate Apart(p: Pin, q: Pin) {
    && WellShaped(p) && WellShaped(q) && p.indented == q.indented
    && exists i :: 0 <= i < |p.key| && i < |q.key| && p.key[i] != q.key[i]
  }

  lemma ApartNeverBoth(p: Pin, q: Pin, line: string)
    requires Apart(p, q)
    ensures ValueStart(p, line).Some? ==> ValueStart(q, line).None?
  {
    var i :| 0 <= i < |p.key| && i < |q.key| && p.key[i] != q.key[i];
    var rest := line[if p.indented then BlankRun(line) else 0..];
    if p.key <= rest {
      assert rest[i] == p.key[i];
    }
  }

  lemma PinsAreApart()
    ensures Apart(CONFIG_VERSION, CONFIG_DIGEST) && Apart(CONFIG_DIGEST, CONFIG_VERSION)
    ensures Apart(WORKFLOW_USE, WORKFLOW_INPUT) && Apart(WORKFLOW_INPUT, WORKFLOW_USE)
  {
    assert WORKFLOW_USE.path[0] == 'f';
    assert CONFIG_VERSION.key[5] != CONFIG_DIGEST.key[5];
    assert WORKFLOW_USE.key[0] != WORKFLOW_INPUT.key[0];
  }

  lemma RewrittenStaysApart(p: Pin, q: Pin, line: string, value: string, tail: string)
    requires Apart(p, q) && Fits(p, value, tail)
    ensures Matches(p, line) ==> !Matches(q, line) && !Matches(q, Rewritten(p, line, value + tail))
  {
    if Matches(p, line) {
      RewrittenMatches(p, line, value, tail);
      ApartNeverBoth(p, q, line);
      ApartNeverBoth(p, q, Rewritten(p, line, value + tail));
    }
  }

  // ----- files of lines

  /** The pinned values of a file, in order: what the source's match lists hold. */
  function Values(p: Pin, lines: seq<string>): seq<string> {
    if lines == [] then []
    else (if Matches(p, lines[0]) then [Value(p, lines[0])] else []) + Values(p, lines[1..])
  }

  function Replace(p: Pin, lines: seq<string>, text: string): seq<string> {
    if lines == [] then [] else [Rewritten(p, lines[0], text)] + Replace(p, lines[1..], text)
  }

  /** A line put right after the first line of the pin. */
  function InsertAfter(p: Pin, lines: seq<string>, line: string): seq<string> {
    if lines == [] then []
    else if Matches(p, lines[0]) then [lines[0], line] + lines[1..]
    else [lines[0]] + InsertAfter(p, lines[1..], line)
  }

  /** The lines that are neither pin. */
  function Others(p: Pin, q: Pin, lines: seq<string>): seq<string> {
    if lines == [] then []
    else (if Matches(p, lines[0]) || Matches(q, lines[0]) then [] else [lines[0]]) + Others(p, q, lines[1..])
  }

  function Repeat(value: string, n: nat): seq<string> {
    if n == 0 then [] else [value] + Repeat(value, n - 1)
  }

  lemma {:induction false} ReplacedValues(p: Pin, lines: seq<string>, value: string, tail: string)
    requires WellShaped(p) && Fits(p, value, tail)
    ensures Values(p, Replace(p, lines, value + tail)) == Repeat(value, |Values(p, lines)|)
  {
    hide Matches, Fits, Value, Rewritten;
    if lines != [] {
      ReplacedValues(p, lines[1..], value, tail);
      assert Replace(p, lines, value + tail)[1..] == Replace(p, lines[1..], value + tail);
      if Matches(p, lines[0]) {
        RewrittenMatches(p, lines[0], value, tail);
      } else {
        Unmatched(p, lines[0], value + tail);
      }
    }
  }

  lemma Unmatched(p: Pin, line: string, text: string)
    requires !Matches(p, line)
    ensures Rewritten(p, line, text) == line
  {
  }

  lemma {:induction false} ReplaceKeepsOther(p: Pin, q: Pin, lines: seq<string>, value: string, tail: string)
    requires Apart(p, q) && Fits(p, value, tail)
    ensures Values(q, Replace(p, lines, value + tail)) == Values(q, lines)
    ensures Others(p, q, Replace(p, lines, value + tail)) == Others(p, q, lines)
    ensures Others(q, p, Replace(p, lines, value + tail)) == Others(q, p, lines)
  {
    hide Matches, Fits, Value, Rewritten, Apart;
    if lines != [] {
      ReplaceKeepsOther(p, q, lines[1..], value, tail);
      assert Replace(p, lines, value + tail)[1..] == Replace(p, lines[1..], value + tail);
      RewrittenStaysApart(p, q, lines[0], value, tail);
      ApartIsShaped(p, q);
      if Matches(p, lines[0]) {
        RewrittenMatches(p, lines[0], value, tail);
      } else {
        Unmatched(p, lines[0], value + tail);
      }
    }
  }

  lemma ApartIsShaped(p: Pin, q: Pin)
    requires Apart(p, q)
    ensures WellShaped(p) && WellShaped(q)
  {
  }

  lemma {:induction false} ReplaceTwice(p: Pin, lines: seq<string>, value: string, tail: string, text: string)
    requires WellShaped(p) && Fits(p, value, tail)
    ensures Replace(p, Replace(p, lines, value + tail), text) == Replace(p, lines, text)
  {
    hide Matches, Fits, Rewritten, WellShaped;
    if lines != [] {
      ReplaceTwice(p, lines[1..], value, tail, text);
      RewrittenTwice(p, lines[0], value, tail, text);
      assert Replace(p, lines, value + tail)[1..] == Replace(p, lines[1..], value + tail);
    }
  }

  lemma {:induction false} ReplacesCommute(p: Pin, q: Pin, lines: seq<string>, a: string, b: string, x: string,
                                           y: string)
    requires Apart(p, q) && Apart(q, p) && Fits(p, a, b) && Fits(q, x, y)
    ensures Replace(p, Replace(q, lines, x + y), a + b) == Replace(q, Replace(p, lines, a + b), x + y)
  {
    hide Matches, Fits, Rewritten, Apart;
    if lines != [] {
      ReplacesCommute(p, q, lines[1..], a, b, x, y);
      assert Replace(p, lines, a + b)[1..] == Replace(p, lines[1..], a + b);
      assert Replace(q, lines, x + y)[1..] == Replace(q, lines[1..], x + y);
      RewrittenStaysApart(p, q, lines[0], a, b);
      RewrittenStaysApart(q, p, lines[0], x, y);
      if Matches(p, lines[0]) {
        Unmatched(q, lines[0], x + y);
        Unmatched(q, Rewritten(p, lines[0], a + b), x + y);
      } else {
        Unmatched(p, lines[0], a + b);
        if Matches(q, lines[0]) {
          Unmatched(p, Rewritten(q, lines[0], x + y), a + b);
        } else {
          Unmatched(q, lines[0], x + y);
        }
      }
    }
  }

  lemma {:induction false} ReplaceNothing(p: Pin, lines: seq<string>, text: string)
    requires Values(p, lines) == []
    ensures Replace(p, lines, text) == lines
  {
    hide Matches;
    if lines != [] {
      ReplaceNothing(p, lines[1..], text);
    }
  }

  /** What is inserted after a pin `p` as a first line of pin `q` changes nothing else. */
  lemma {:induction false} InsertedValues(p: Pin, q: Pin, lines: seq<string>, line: string)
    requires Apart(p, q) && Matches(q, line)
    requires Values(p, lines) != [] && Values(q, lines) == []
    ensures Values(p, InsertAfter(p, lines, line)) == Values(p, lines)
    ensures Values(q, InsertAfter(p, lines, line)) == [Value(q, line)]
    ensures Others(p, q, InsertAfter(p, lines, line)) == Others(p, q, lines)
  {
    hide Matches, Value, Apart;
    var next := InsertAfter(p, lines, line);
    ApartNeverMatch(p, q, line);
    if Matches(p, lines[0]) {
      assert next[1..] == [line] + lines[1..];
      assert next[1..][1..] == lines[1..];
    } else {
      InsertedValues(p, q, lines[1..], line);
      assert next[1..] == InsertAfter(p, lines[1..], line);
    }
  }

  lemma ApartNeverMatch(p: Pin, q: Pin, line: string)
    requires Apart(p, q)
    ensures !(Matches(p, line) && Matches(q, line))
  {
    ApartNeverBoth(p, q, line);
  }

  /** Replacing after inserting is inserting the replaced line after replacing. */
  lemma {:induction false} ReplaceInserted(p: Pin, q: Pin, lines: seq<string>, line: string, a: string, b: string,
                                           text: string)
    requires Apart(p, q) && Matches(q, line) && Fits(p, a, b)
    requires Values(q, lines) == []
    ensures Replace(p, InsertAfter(p, lines, line), a + b) == InsertAfter(p, Replace(p, lines, a + b), line)
    ensures Replace(q, InsertAfter(p, lines, line), text) == InsertAfter(p, lines, Rewritten(q, line, text))
  {
    hide Matches, Fits, Rewritten, Apart;
    var next := InsertAfter(p, lines, line);
    ApartNeverMatch(p, q, line);
    ApartIsShaped(p, q);
    if lines != [] {
      Unmatched(q, lines[0], text);
      if Matches(p, lines[0]) {
        RewrittenMatches(p, lines[0], a, b);
        Unmatched(p, line, a + b);
        ReplaceNothing(q, lines[1..], text);
        assert next[1..] == [line] + lines[1..];
        assert next[1..][1..] == lines[1..];
      } else {
        Unmatched(p, lines[0], a + b);
        ReplaceInserted(p, q, lines[1..], line, a, b, text);
        assert next[1..] == InsertAfter(p, lines[1..], line);
      }
    }
  }
}
