/** The lines that are accepted as finding metadata, written out as their fields. */
module LocationGrammar {
  import opened Wrappers
  import opened Text
  import opened Streaming

  ghost predicate Hex(s: string, length: nat) {
    |s| == length && forall c | c in s :: c in "0123456789abcdef"
  }

  ghost predicate PositiveNumber(s: string) {
    0 < |s| < 8 && s[0] in "123456789" && forall c | c in s :: c in "0123456789"
  }

  /** The digests of the file's name and of the rule, the line, and the commit or a dash. */
  ghost predicate Fields(line: string, file: string, rule: string, number: string, commit: string) {
    && line == file + (" " + (rule + (" " + (number + (" " + commit)))))
    && Hex(file, 64) && Hex(rule, 64) && PositiveNumber(number) && (commit == "-" || Hex(commit, 40) || Hex(commit, 64))
  }

  lemma HexIsExact(s: string, length: nat)
    ensures Hex(s, length) <==> |s| == length && AllHex(s)
  {
    forall c: char ensures IsHex(c) <==> c in "0123456789abcdef" {
      HexDigit(c);
    }
    forall i | 0 <= i < |s| ensures s[i] in s {
    }
  }

  lemma HexDigit(c: char)
    ensures IsHex(c) <==> c in "0123456789abcdef"
  {
    var all := "0123456789abcdef";
    if '0' <= c <= '9' {
      assert all[c as int - '0' as int] == c;
    } else if 'a' <= c <= 'f' {
      assert all[10 + (c as int - 'a' as int)] == c;
    }
  }

  lemma NumberIsExact(s: string)
    ensures PositiveNumber(s) <==> LineNumber(s)
  {
    forall c: char ensures c in "0123456789" <==> '0' <= c <= '9' {
      Digit(c);
    }
    forall c: char ensures c in "123456789" <==> '1' <= c <= '9' {
      NonZeroDigit(c);
    }
    forall i | 0 <= i < |s| ensures s[i] in s {
    }
  }

  lemma Digit(c: char)
    ensures c in "0123456789" <==> '0' <= c <= '9'
  {
    if '0' <= c <= '9' {
      assert "0123456789"[c as int - '0' as int] == c;
    }
  }

  lemma NonZeroDigit(c: char)
    ensures c in "123456789" <==> '1' <= c <= '9'
  {
    if '1' <= c <= '9' {
      assert "123456789"[c as int - '1' as int] == c;
    }
  }

  ghost predicate Ends(tail: string, number: string, commit: string) {
    && tail == number + (" " + commit) && PositiveNumber(number)
    && (commit == "-" || Hex(commit, 40) || Hex(commit, 64))
  }

  lemma TailIsExact(tail: string, n: nat)
    ensures NumberThenCommit(tail, n) <==> exists number, commit | Ends(tail, number, commit) :: |number| == n
  {
    hide LineNumber, PositiveNumber, Hex, AllHex;
    if n < |tail| {
      NumberIsExact(tail[..n]);
      HexIsExact(tail[n + 1..], 40);
      HexIsExact(tail[n + 1..], 64);
      if NumberThenCommit(tail, n) {
        assert tail == tail[..n] + (" " + tail[n + 1..]);
        assert Ends(tail, tail[..n], tail[n + 1..]);
      }
    }
    if number, commit :| Ends(tail, number, commit) && |number| == n {
      assert tail[..n] == number && tail[n + 1..] == commit && tail[n] == ' ';
    }
  }

  /** A line is a location exactly if it is made of these fields. */
  lemma LocationIsExact(line: string)
    ensures SecretLocation(line) <==> exists file, rule, number, commit :: Fields(line, file, rule, number, commit)
  {
    hide NumberThenCommit, PositiveNumber, Hex, AllHex;
    if SecretLocation(line) {
      var n :| 1 <= n <= 7 && NumberThenCommit(line[130..], n);
      TailIsExact(line[130..], n);
      var number, commit :| Ends(line[130..], number, commit) && |number| == n;
      HexIsExact(line[..64], 64);
      HexIsExact(line[65..129], 64);
      Joined(line);
      assert Fields(line, line[..64], line[65..129], number, commit);
    }
    if file, rule, number, commit :| Fields(line, file, rule, number, commit) {
      HexIsExact(file, 64);
      HexIsExact(rule, 64);
      Apart(line, file, rule, number + (" " + commit));
      NumberSize(number);
      assert Ends(line[130..], number, commit);
      TailIsExact(line[130..], |number|);
    }
  }

  lemma NumberSize(number: string)
    requires PositiveNumber(number)
    ensures 1 <= |number| <= 7
  {
  }

  lemma Joined(line: string)
    requires |line| > 130 && line[64] == ' ' && line[129] == ' '
    ensures line == line[..64] + (" " + (line[65..129] + (" " + line[130..])))
  {
  }

  lemma Apart(line: string, file: string, rule: string, tail: string)
    requires line == file + (" " + (rule + (" " + tail))) && |file| == |rule| == 64 && tail != ""
    ensures |line| > 130 && line[..64] == file && line[64] == ' ' && line[65..129] == rule && line[129] == ' '
    ensures line[130..] == tail
  {
  }
}
