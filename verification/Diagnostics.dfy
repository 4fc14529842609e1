/** Service diagnostics: a writer that keeps the tail of a stream, and the
    redaction of secrets in what it kept. Streams are ASCII, so that characters
    are bytes and validity of UTF-8 never intervenes. */
module Diagnostics {
  import opened Text

  const MAXIMUM_DIAGNOSTIC: nat := 4096
  const TRUNCATED: string := "[diagnostic truncated]\n"

  predicate Ascii(s: string) {
    forall i | 0 <= i < |s| :: s[i] < 128 as char
  }

  // ----- the tail of a stream

  function Tail(stream: string, limit: nat): (tail: string)
    ensures |tail| == if |stream| < limit then |stream| else limit
  {
    if |stream| <= limit then stream else stream[|stream| - limit..]
  }

  /** The tail of a stream is the tail of any tail followed by what came after. */
  lemma TailOfTail(stream: string, chunk: string, limit: nat)
    ensures Tail(stream + chunk, limit) == Tail(Tail(stream, limit) + chunk, limit)
  {
    if |stream| > limit {
      var cut := |stream| - limit;
      assert stream + chunk == stream[..cut] + (stream[cut..] + chunk);
    }
  }

  /** What is kept after writing chunk after chunk. */
  function Kept(chunks: seq<string>, limit: nat): string {
    if chunks == [] then "" else Tail(Kept(chunks[..|chunks| - 1], limit) + chunks[|chunks| - 1], limit)
  }

  /** However a stream is cut into chunks, its tail is kept. */
  lemma {:induction false} ChunkingIsIrrelevant(chunks: seq<string>, limit: nat)
    ensures Kept(chunks, limit) == Tail(Concatenation(chunks), limit)
  {
    if chunks == [] {
    } else {
      var front, last := chunks[..|chunks| - 1], chunks[|chunks| - 1];
      ChunkingIsIrrelevant(front, limit);
      TailOfTail(Concatenation(front), last, limit);
    }
  }

  function TotalLength(secrets: seq<string>): nat {
    if secrets == [] then 0 else TotalLength(secrets[..|secrets| - 1]) + |secrets[|secrets| - 1]|
  }

  function NonEmpty(secrets: seq<string>): seq<string> {
    if secrets == [] then []
    else NonEmpty(secrets[..|secrets| - 1]) + if secrets[|secrets| - 1] != "" then [secrets[|secrets| - 1]] else []
  }

  // ----- redaction

  ghost predicate OccursAt(text: string, secret: string, start: int) {
    0 <= start && start + |secret| <= |text| && text[start..start + |secret|] == secret
  }

  /** Position `at` lies in a whole occurrence of the secret. */
  ghost predicate InOccurrence(text: string, secret: string, at: int) {
    exists start | start <= at < start + |secret| :: OccursAt(text, secret, start)
  }

  /** The text starts with a proper suffix of the secret, of the given size. */
  ghost predicate LeftCut(text: string, secret: string, size: int) {
    0 < size < |secret| && size <= |text| && text[..size] == secret[|secret| - size..]
  }

  /** The text ends with a proper prefix of the secret, of the given size. */
  ghost predicate RightCut(text: string, secret: string, size: int) {
    0 < size < |secret| && size <= |text| && text[|text| - size..] == secret[..size]
  }

  ghost predicate InLeftCut(text: string, secret: string, at: int) {
    exists size | LeftCut(text, secret, size) :: at < size
  }

  ghost predicate InRightCut(text: string, secret: string, at: int) {
    exists size | RightCut(text, secret, size) :: |text| - size <= at
  }

  ghost predicate MaskedBy(text: string, secret: string, at: int) {
    InOccurrence(text, secret, at) || InLeftCut(text, secret, at) || InRightCut(text, secret, at)
  }

  ghost predicate Masked(text: string, secrets: seq<string>, at: int) {
    exists k | 0 <= k < |secrets| :: MaskedBy(text, secrets[k], at)
  }

  /** The secret, laid over the text from this position on, agrees with it wherever
      the two overlap, and sticks out at one end at most. */
  ghost predicate Overlays(text: string, secret: string, start: int) {
    && (0 <= start || start + |secret| <= |text|)
    && forall j | 0 <= j < |secret| && 0 <= start + j < |text| :: text[start + j] == secret[j]
  }

  lemma OverlayWhole(text: string, secret: string, start: int)
    requires 0 <= start && start + |secret| <= |text|
    ensures Overlays(text, secret, start) <==> OccursAt(text, secret, start)
  {
    if Overlays(text, secret, start) {
      assert text[start..start + |secret|] == secret;
    }
    if OccursAt(text, secret, start) {
      forall j | 0 <= j < |secret| && 0 <= start + j < |text| ensures text[start + j] == secret[j] {
        assert text[start..start + |secret|][j] == secret[j];
      }
    }
  }

  lemma OverlayLeft(text: string, secret: string, start: int)
    requires start < 0 < start + |secret| <= |text|
    ensures Overlays(text, secret, start) <==> LeftCut(text, secret, start + |secret|)
  {
    var size := start + |secret|;
    if Overlays(text, secret, start) {
      forall i | 0 <= i < size ensures text[..size][i] == secret[|secret| - size..][i] {
        assert text[start + (i - start)] == secret[i - start];
      }
      assert text[..size] == secret[|secret| - size..];
    }
    if LeftCut(text, secret, size) {
      forall j | 0 <= j < |secret| && 0 <= start + j < |text| ensures text[start + j] == secret[j] {
        assert text[..size][start + j] == secret[|secret| - size..][start + j];
      }
    }
  }

  lemma OverlayRight(text: string, secret: string, start: int)
    requires 0 <= start < |text| < start + |secret|
    ensures Overlays(text, secret, start) <==> RightCut(text, secret, |text| - start)
  {
    var size := |text| - start;
    if Overlays(text, secret, start) {
      assert text[|text| - size..] == secret[..size];
    }
    if RightCut(text, secret, size) {
      forall j | 0 <= j < |secret| && 0 <= start + j < |text| ensures text[start + j] == secret[j] {
        assert text[|text| - size..][j] == secret[..size][j];
      }
    }
  }

  /** A position is masked exactly if some secret laid over the text covers it. */
  lemma MaskIsOverlay(text: string, secrets: seq<string>, at: int)
    requires 0 <= at < |text|
    ensures Masked(text, secrets, at) <==>
      exists k, start | 0 <= k < |secrets| && start <= at < start + |secrets[k]| :: Overlays(text, secrets[k], start)
  {
    hide Overlays, OccursAt, LeftCut, RightCut;
    forall k | 0 <= k < |secrets|
      ensures MaskedBy(text, secrets[k], at) <==>
        exists start | start <= at < start + |secrets[k]| :: Overlays(text, secrets[k], start)
    {
      OneMask(text, secrets[k], at);
    }
  }

  lemma OneMask(text: string, secret: string, at: int)
    requires 0 <= at < |text|
    ensures MaskedBy(text, secret, at) <==>
      exists start | start <= at < start + |secret| :: Overlays(text, secret, start)
  {
    hide Overlays, OccursAt, LeftCut, RightCut;
    if start :| start <= at < start + |secret| && Overlays(text, secret, start) {
      OverlayEnds(text, secret, start);
      if start < 0 {
        OverlayLeft(text, secret, start);
      } else if start + |secret| <= |text| {
        OverlayWhole(text, secret, start);
      } else {
        OverlayRight(text, secret, start);
      }
    }
    if start :| start <= at < start + |secret| && OccursAt(text, secret, start) {
      CutSizes(text, secret);
      OverlayWhole(text, secret, start);
    }
    if size :| LeftCut(text, secret, size) && at < size {
      CutSizes(text, secret);
      OverlayLeft(text, secret, size - |secret|);
    }
    if size :| RightCut(text, secret, size) && |text| - size <= at {
      CutSizes(text, secret);
      OverlayRight(text, secret, |text| - size);
    }
  }

  lemma OverlayEnds(text: string, secret: string, start: int)
    requires Overlays(text, secret, start)
    ensures 0 <= start || start + |secret| <= |text|
  {
  }

  lemma CutSizes(text: string, secret: string)
    ensures forall start | OccursAt(text, secret, start) :: 0 <= start && start + |secret| <= |text|
    ensures forall size | LeftCut(text, secret, size) :: 0 < size < |secret| && size <= |text|
    ensures forall size | RightCut(text, secret, size) :: 0 < size < |secret| && size <= |text|
  {
  }

  /** `redacted` is `text` with exactly the masked positions replaced. */
  ghost predicate IsRedaction(redacted: string, text: string, secrets: seq<string>) {
    && |redacted| == |text|
    && forall i | 0 <= i < |text| :: redacted[i] == if Masked(text, secrets, i) then '*' else text[i]
  }

  /** A byte of a secret's occurrence in the whole stream is masked if it was
      kept, even when the occurrence is cut by the left edge of what was kept. */
  lemma OccurrenceInStreamIsMasked(stream: string, limit: nat, secrets: seq<string>, k: nat, start: int, at: int)
    requires k < |secrets| && OccursAt(stream, secrets[k], start) && start <= at < start + |secrets[k]|
    requires |stream| - |Tail(stream, limit)| <= at
    ensures Masked(Tail(stream, limit), secrets, at - (|stream| - |Tail(stream, limit)|))
  {
    var secret, text := secrets[k], Tail(stream, limit);
    var cut := |stream| - |text|;
    assert text == stream[cut..];
    if cut <= start {
      OccurrenceIsKept(stream, cut, secret, start);
    } else {
      OccurrenceIsCut(stream, cut, secret, start);
    }
    assert MaskedBy(text, secret, at - cut);
  }

  lemma OccurrenceIsKept(stream: string, cut: nat, secret: string, start: int)
    requires cut <= start && OccursAt(stream, secret, start)
    ensures OccursAt(stream[cut..], secret, start - cut)
  {
    assert stream[cut..][start - cut..start - cut + |secret|] == stream[start..start + |secret|];
  }

  lemma OccurrenceIsCut(stream: string, cut: nat, secret: string, start: int)
    requires start < cut < start + |secret| && OccursAt(stream, secret, start)
    ensures LeftCut(stream[cut..], secret, start + |secret| - cut)
  {
    var size := start + |secret| - cut;
    assert stream[cut..][..size] == stream[cut..start + |secret|];
    assert secret[|secret| - size..] == stream[start..start + |secret|][cut - start..] == stream[cut..start + |secret|];
  }

  /** No secret without a '*' in it can be read in a redacted text. */
  lemma NoSecretSurvives(redacted: string, text: string, secrets: seq<string>, k: nat, start: int)
    requires IsRedaction(redacted, text, secrets)
    requires k < |secrets| && secrets[k] != "" && '*' !in secrets[k]
    ensures !OccursAt(redacted, secrets[k], start)
  {
    var secret := secrets[k];
    if OccursAt(redacted, secret, start) {
      forall i | 0 <= i < |secret| ensures text[start + i] == secret[i] {
        assert redacted[start + i] == redacted[start..start + |secret|][i] == secret[i];
        assert secret[i] in secret;
      }
      assert redacted[start + 0] == secret[0] && secret[0] in secret;
      assert text[start..start + |secret|] == secret;
      assert OccursAt(text, secret, start);
    }
  }

  /** A secret with a '*' in it, and the text in which another secret, one
      character long, is masked into that '*'. */
  function Disguise(secret: string, p: nat, c: char): (text: string)
    requires p < |secret|
    ensures |text| == 3 * |secret|
    ensures forall i | 0 <= i < |text| ::
      text[i] == if |secret| <= i < 2 * |secret| && i != |secret| + p then secret[i - |secret|] else c
  {
    Repeated(c, |secret|) + secret[p := c] + Repeated(c, |secret|)
  }

  lemma DisguiseHasNoOccurrence(secret: string, p: nat, c: char)
    requires p < |secret| && c !in secret
    ensures forall at :: !MaskedBy(Disguise(secret, p, c), secret, at)
  {
    var text := Disguise(secret, p, c);
    var n := |secret|;
    forall start: int ensures !OccursAt(text, secret, start) {
      if 0 <= start <= 2 * n {
        var i := if start < n then n - 1 else if start <= n + p then n + p else 2 * n;
        assert text[start..start + n][i - start] == c;
        assert secret[i - start] in secret;
      }
    }
    forall size: int ensures !LeftCut(text, secret, size) && !RightCut(text, secret, size) {
      if 0 < size < n {
        assert text[..size][0] == c && secret[n - size..][0] in secret;
        assert text[|text| - size..][0] == c && secret[..size][0] in secret;
      }
    }
  }

  lemma StarredSecretSurvives(secret: string, p: nat, c: char)
    requires p < |secret| && secret[p] == '*' && c !in secret
    ensures Survives(secret, Disguise(secret, p, c), Repeated('*', |secret|) + secret + Repeated('*', |secret|),
                     [secret, [c]])
  {
    var n, secrets := |secret|, [secret, [c]];
    var text := Disguise(secret, p, c);
    var redacted := Repeated('*', n) + secret + Repeated('*', n);
    DisguiseHasNoOccurrence(secret, p, c);
    forall i | 0 <= i < |text| ensures Masked(text, secrets, i) <==> text[i] == c {
      LetterIsMasked(text, c, i);
      assert secrets[1] == [c] && secrets[0] == secret;
    }
    forall i | 0 <= i < |text| ensures redacted[i] == if text[i] == c then '*' else text[i] {
      assert n <= i < 2 * n ==> secret[i - n] in secret;
    }
    assert OccursAt(redacted, secret, n);
  }

  lemma LetterIsMasked(text: string, c: char, i: nat)
    requires i < |text|
    ensures MaskedBy(text, [c], i) <==> text[i] == c
  {
    assert text[i..i + 1] == [text[i]];
    assert OccursAt(text, [c], i) <==> text[i] == c;
  }

  /** Some redaction shows `secret` although it is configured as one. */
  ghost predicate Survives(secret: string, text: string, redacted: string, secrets: seq<string>) {
    secret in secrets && IsRedaction(redacted, text, secrets) && exists start :: OccursAt(redacted, secret, start)
  }

  /** Exactly the secrets without a '*' can never be read in any redaction,
      whatever else is configured. */
  lemma StarDecidesSurvival(secret: string, c: char)
    requires secret != "" && c !in secret
    ensures '*' !in secret <==> forall text, redacted, secrets :: !Survives(secret, text, redacted, secrets)
  {
    if '*' in secret {
      var p :| 0 <= p < |secret| && secret[p] == '*';
      StarredSecretSurvives(secret, p, c);
    } else {
      forall text, redacted, secrets ensures !Survives(secret, text, redacted, secrets) {
        if Survives(secret, text, redacted, secrets) {
          var k :| 0 <= k < |secrets| && secrets[k] == secret;
          var start :| OccursAt(redacted, secret, start);
          NoSecretSurvives(redacted, text, secrets, k, start);
        }
      }
    }
  }

  /** Redacts what is configured as secret, including what the edges cut. */
  method RedactDiagnosticSecrets(value: string, secrets: seq<string>) returns (redacted: string)
    ensures IsRedaction(redacted, value, secrets)
  {
    var mask := new bool[|value|](_ => false);
    for k := 0 to |secrets|
      invariant forall i | 0 <= i < |value| :: mask[i] <==> exists j | 0 <= j < k :: MaskedBy(value, secrets[j], i)
    {
      ghost var before := mask[..];
      MaskOccurrences(value, secrets[k], mask);
      MaskBoundaries(value, secrets[k], mask);
      forall i | 0 <= i < |value| ensures mask[i] <==> exists j | 0 <= j < k + 1 :: MaskedBy(value, secrets[j], i) {
        assert mask[i] <==> before[i] || MaskedBy(value, secrets[k], i);
      }
    }
    redacted := value;
    for position := 0 to |value|
      invariant |redacted| == |value|
      invariant forall i | position <= i < |value| :: redacted[i] == value[i]
      invariant forall i | 0 <= i < position :: redacted[i] == if mask[i] then '*' else value[i]
    {
      if mask[position] {
        redacted := redacted[position := '*'];
      }
    }
  }

  /** Masks every whole occurrence, overlapping ones too. */
  method MaskOccurrences(value: string, secret: string, mask: array<bool>)
    requires mask.Length == |value|
    modifies mask
    ensures forall i | 0 <= i < |value| :: mask[i] <==> old(mask[i]) || InOccurrence(value, secret, i)
  {
    if |secret| > |value| {
      return;
    }
    for start := 0 to |value| - |secret| + 1
      invariant forall i | 0 <= i < |value| :: mask[i] <==> old(mask[i]) || FoundBefore(value, secret, start, i)
    {
      ghost var before := mask[..];
      assert value[start..] == value[start..start + |secret|] + value[start + |secret|..];
      if secret <= value[start..] {
        assert value[start..start + |secret|] == value[start..][..|secret|];
        assert OccursAt(value, secret, start);
        MaskRange(mask, start, start + |secret|);
      } else {
        assert !OccursAt(value, secret, start);
      }
      forall i | 0 <= i < |value|
        ensures FoundBefore(value, secret, start + 1, i) <==>
          FoundBefore(value, secret, start, i) || (OccursAt(value, secret, start) && start <= i < start + |secret|)
      {
      }
      assert forall i | 0 <= i < |value| ::
        mask[i] <==> before[i] || (OccursAt(value, secret, start) && start <= i < start + |secret|);
    }
  }

  ghost predicate FoundBefore(text: string, secret: string, until: int, at: int) {
    exists start | OccursAt(text, secret, start) :: start < until && start <= at < start + |secret|
  }

  ghost predicate CutBefore(text: string, secret: string, until: int, at: int) {
    (exists size | LeftCut(text, secret, size) :: size <= until && at < size) ||
    (exists size | RightCut(text, secret, size) :: size <= until && |text| - size <= at)
  }

  method MaskRange(mask: array<bool>, from: nat, to: nat)
    requires from <= to <= mask.Length
    modifies mask
    ensures forall i | 0 <= i < mask.Length :: mask[i] <==> old(mask[i]) || from <= i < to
  {
    for i := from to to
      invariant forall k | 0 <= k < mask.Length :: mask[k] <==> old(mask[k]) || from <= k < i
    {
      mask[i] := true;
    }
  }

  /** What a cut of exactly this size masks. */
  ghost predicate CutAt(text: string, secret: string, size: int, at: int) {
    (LeftCut(text, secret, size) && at < size) || (RightCut(text, secret, size) && |text| - size <= at)
  }

  lemma CutStep(text: string, secret: string, size: int)
    ensures forall i ::
      CutBefore(text, secret, size, i) <==> CutBefore(text, secret, size - 1, i) || CutAt(text, secret, size, i)
  {
  }

  lemma CutsBegin(text: string, secret: string)
    ensures forall i :: !CutBefore(text, secret, 0, i)
  {
  }

  lemma CutsEnd(text: string, secret: string, until: int)
    requires |secret| - 1 <= until || |text| <= until
    ensures forall i :: CutBefore(text, secret, until, i) <==> InLeftCut(text, secret, i) || InRightCut(text, secret, i)
  {
  }

  /** Masks what a cut of one size leaves at either edge. */
  method MaskCut(value: string, secret: string, size: nat, mask: array<bool>)
    requires mask.Length == |value| && 0 < size < |secret| && size <= |value|
    modifies mask
    ensures forall i | 0 <= i < |value| :: mask[i] <==> old(mask[i]) || CutAt(value, secret, size, i)
  {
    if value[..size] == secret[|secret| - size..] {
      MaskRange(mask, 0, size);
    }
    if value[|value| - size..] == secret[..size] {
      MaskRange(mask, |value| - size, |value|);
    }
  }

  /** Masks what the edges leave of an occurrence, at every possible size. */
  method MaskBoundaries(value: string, secret: string, mask: array<bool>)
    requires mask.Length == |value|
    modifies mask
    ensures forall i | 0 <= i < |value| ::
      mask[i] <==> old(mask[i]) || InLeftCut(value, secret, i) || InRightCut(value, secret, i)
  {
    hide CutBefore, CutAt, InLeftCut, InRightCut;
    var maximumBoundary := if |secret| - 1 < |value| then |secret| - 1 else |value|;
    CutsBegin(value, secret);
    var boundary := 0;
    while boundary < maximumBoundary
      invariant 0 <= boundary && (boundary <= maximumBoundary || boundary == 0)
      invariant forall i | 0 <= i < |value| :: mask[i] <==> old(mask[i]) || CutBefore(value, secret, boundary, i)
    {
      CutStep(value, secret, boundary + 1);
      MaskCut(value, secret, boundary + 1, mask);
      boundary := boundary + 1;
    }
    CutsEnd(value, secret, boundary);
  }

  // ----- rendering

  predicate IsSpace(c: char) {
    c == ' ' || 9 as char <= c <= 13 as char
  }

  function Clean(c: char): char {
    if c == '\r' then '\n' else if (c < 32 as char || c == 127 as char) && c != '\n' && c != '\t' then '?' else c
  }

  function Cleaned(s: string): (r: string)
    ensures |r| == |s| && forall i | 0 <= i < |s| :: r[i] == Clean(s[i])
  {
    seq(|s|, i requires 0 <= i < |s| => Clean(s[i]))
  }

  function TrimStart(s: string): string {
    if s != "" && IsSpace(s[0]) then TrimStart(s[1..]) else s
  }

  function TrimEnd(s: string): string {
    if s != "" && IsSpace(s[|s| - 1]) then TrimEnd(s[..|s| - 1]) else s
  }

  function Trim(s: string): string {
    TrimEnd(TrimStart(s))
  }

  /** What is shown of a redacted text. */
  function Rendering(redacted: string, truncated: bool): string {
    var text := Trim(Cleaned(redacted));
    if text == "" then ""
    else if truncated || |text| > MAXIMUM_DIAGNOSTIC then TRUNCATED + Tail(text, MAXIMUM_DIAGNOSTIC - |TRUNCATED|)
    else text
  }

  /** `part` is what `whole` has from position `from` on. */
  ghost predicate SliceAt(part: string, whole: string, from: nat) {
    from + |part| <= |whole| && part == whole[from..from + |part|]
  }

  lemma {:induction false} TrimEndIsPrefix(s: string)
    ensures TrimEnd(s) <= s
  {
    if s != "" && IsSpace(s[|s| - 1]) {
      TrimEndIsPrefix(s[..|s| - 1]);
    }
  }

  lemma {:induction false} TrimStartIsSuffix(s: string) returns (from: nat)
    ensures from <= |s| && TrimStart(s) == s[from..]
  {
    if s != "" && IsSpace(s[0]) {
      var rest := TrimStartIsSuffix(s[1..]);
      from := rest + 1;
    } else {
      from := 0;
    }
  }

  /** The notice in front of what is shown. */
  function Notice(redacted: string, truncated: bool): string {
    var text := Trim(Cleaned(redacted));
    if text != "" && (truncated || |text| > MAXIMUM_DIAGNOSTIC) then TRUNCATED else ""
  }

  /** Where in the redacted text the first byte shown after the notice is. */
  function Origin(redacted: string, truncated: bool): int {
    var all := Cleaned(redacted);
    |all| - |TrimStart(all)| + |Trim(all)| - (|Rendering(redacted, truncated)| - |Notice(redacted, truncated)|)
  }

  /** What is shown fits the limit, and past the notice of truncation it is one
      slice of the cleaned redaction. */
  lemma RenderingIsBoundedSlice(redacted: string, truncated: bool)
    ensures |Rendering(redacted, truncated)| <= MAXIMUM_DIAGNOSTIC
    ensures Notice(redacted, truncated) <= Rendering(redacted, truncated) && Origin(redacted, truncated) >= 0
    ensures SliceAt(Rendering(redacted, truncated)[|Notice(redacted, truncated)|..], Cleaned(redacted),
                    Origin(redacted, truncated))
  {
    hide Cleaned, Trim, Tail, SliceAt;
    var all := Cleaned(redacted);
    var text := Trim(all);
    TrimIsSlice(all);
    if text != "" && (truncated || |text| > MAXIMUM_DIAGNOSTIC) {
      var room := MAXIMUM_DIAGNOSTIC - |TRUNCATED|;
      TailIsSlice(text, all, |all| - |TrimStart(all)|, room);
      assert (TRUNCATED + Tail(text, room))[|TRUNCATED|..] == Tail(text, room);
    } else {
      assert Rendering(redacted, truncated)[0..] == text;
    }
  }

  lemma TrimIsSlice(s: string)
    ensures |TrimStart(s)| <= |s| && SliceAt(Trim(s), s, |s| - |TrimStart(s)|)
  {
    var start := TrimStartIsSuffix(s);
    TrimEndIsPrefix(TrimStart(s));
  }

  lemma TailIsSlice(text: string, all: string, start: nat, room: nat)
    requires SliceAt(text, all, start)
    ensures SliceAt(Tail(text, room), all, start + |text| - |Tail(text, room)|)
  {
    assert Tail(text, room) == text[|text| - |Tail(text, room)|..];
  }

  // ----- what is shown, byte by byte

  ghost predicate Blank(c: char) {
    c == ' ' || c == '\t' || c == '\n' || c == '\r'
  }

  ghost predicate AllBlank(s: string) {
    forall i | 0 <= i < |s| :: Blank(s[i])
  }

  /** A carriage return is shown as a line feed, any other control character but
      a line feed or a tab as a question mark, and everything else as it is. */
  ghost predicate ShownAs(raw: char, shown: char) {
    match raw
    case '\r' => shown == '\n'
    case '\n' => shown == '\n'
    case '\t' => shown == '\t'
    case _ => shown == if ' ' <= raw && raw as int != 127 then raw else '?'
  }

  ghost predicate AllShownAs(raw: string, shown: string) {
    |raw| == |shown| && forall i | 0 <= i < |raw| :: ShownAs(raw[i], shown[i])
  }

  /** A text without blanks at its ends is shown whole if it fits and nothing was
      dropped before it, and otherwise its last 4073 bytes after a notice. */
  ghost predicate ShowsText(text: string, truncated: bool, shown: string) {
    if text == "" then shown == ""
    else if |text| <= 4096 && !truncated then AllShownAs(text, shown)
    else
      && |shown| >= 23 && shown[..23] == "[diagnostic truncated]\n"
      && AllShownAs(if |text| <= 4073 then text else text[|text| - 4073..], shown[23..])
  }

  /** What lies between these two positions is all but the blanks at the ends. */
  ghost predicate Stripped(text: string, from: nat, to: nat) {
    && from <= to <= |text| && AllBlank(text[..from]) && AllBlank(text[to..])
    && (from < to ==> !Blank(text[from]) && !Blank(text[to - 1]))
  }

  ghost predicate Shows(text: string, truncated: bool, shown: string) {
    exists from: nat, to: nat | Stripped(text, from, to) :: ShowsText(text[from..to], truncated, shown)
  }

  lemma CleanedBlanks(c: char)
    ensures IsSpace(Clean(c)) <==> Blank(c)
    ensures ShownAs(c, Clean(c))
  {
  }

  lemma {:induction false} TrimStartStops(s: string) returns (from: nat)
    ensures from <= |s| && TrimStart(s) == s[from..]
    ensures (forall i | 0 <= i < from :: IsSpace(s[i])) && (from < |s| ==> !IsSpace(s[from]))
  {
    if s != "" && IsSpace(s[0]) {
      var rest := TrimStartStops(s[1..]);
      from := rest + 1;
      assert forall i | 0 < i < from :: s[i] == s[1..][i - 1];
    } else {
      from := 0;
    }
  }

  lemma {:induction false} TrimEndStops(s: string) returns (to: nat)
    ensures to <= |s| && TrimEnd(s) == s[..to]
    ensures (forall i | to <= i < |s| :: IsSpace(s[i])) && (to > 0 ==> !IsSpace(s[to - 1]))
  {
    if s != "" && IsSpace(s[|s| - 1]) {
      to := TrimEndStops(s[..|s| - 1]);
      assert forall i | to <= i < |s| - 1 :: s[i] == s[..|s| - 1][i];
    } else {
      to := |s|;
    }
  }

  lemma TrimIsStripped(s: string) returns (from: nat, to: nat)
    ensures Stripped(s, from, to) && Trim(Cleaned(s)) == Cleaned(s)[from..to]
  {
    hide IsSpace, Clean;
    var all := Cleaned(s);
    forall c ensures IsSpace(Clean(c)) <==> Blank(c) {
      CleanedBlanks(c);
    }
    from := TrimStartStops(all);
    var length := TrimEndStops(all[from..]);
    to := from + length;
    assert all[from..][..length] == all[from..to];
    forall i | to <= i < |s| ensures Blank(s[i]) {
      assert IsSpace(all[from..][i - from]);
    }
    if from < to {
      assert all[from..][length - 1] == all[to - 1];
    }
    assert forall i | 0 <= i < |s| - to :: s[to..][i] == s[to + i];
  }

  lemma CleanedShows(s: string, from: nat, to: nat)
    requires from <= to <= |s|
    ensures AllShownAs(s[from..to], Cleaned(s)[from..to])
  {
    hide Clean, ShownAs;
    forall i | 0 <= i < to - from ensures ShownAs(s[from..to][i], Cleaned(s)[from..to][i]) {
      CleanedBlanks(s[from + i]);
    }
  }

  /** The rendering shows the redacted text, byte by byte. */
  lemma RenderingIsExact(redacted: string, truncated: bool)
    ensures Shows(redacted, truncated, Rendering(redacted, truncated))
  {
    hide Trim, Cleaned, AllShownAs, Stripped;
    var shown := Rendering(redacted, truncated);
    var from, to := TrimIsStripped(redacted);
    StrippedLies(redacted, from, to);
    var text, clean := redacted[from..to], Cleaned(redacted)[from..to];
    CleanedShows(redacted, from, to);
    if text != "" && (truncated || |text| > 4096) {
      assert |TRUNCATED| == 23;
      assert shown[..23] == "[diagnostic truncated]\n" && shown[23..] == Tail(clean, 4073);
      if |text| > 4073 {
        CleanedShows(redacted, to - 4073, to);
        assert text[|text| - 4073..] == redacted[to - 4073..to];
        assert Tail(clean, 4073) == Cleaned(redacted)[to - 4073..to];
      }
    }
    assert ShowsText(text, truncated, shown);
  }

  lemma StrippedLies(text: string, from: nat, to: nat)
    requires Stripped(text, from, to)
    ensures from <= to <= |text|
  {
  }

  /** Byte `i` of what is shown, past the notice, is this byte of the stream. */
  function StreamPosition(stream: string, limit: nat, redacted: string, truncated: bool, i: int): int {
    |stream| - |Tail(stream, limit)| + Origin(redacted, truncated) + i - |Notice(redacted, truncated)|
  }

  /** Whatever is shown of an occurrence of a secret in the stream is '*'. */
  ghost predicate ShowsNoSecret(stream: string, limit: nat, secrets: seq<string>, redacted: string, truncated: bool,
                                shown: string) {
    forall i, k, start |
      && |Notice(redacted, truncated)| <= i < |shown| && 0 <= k < |secrets| && OccursAt(stream, secrets[k], start)
      && start <= StreamPosition(stream, limit, redacted, truncated, i) < start + |secrets[k]| :: shown[i] == '*'
  }

  lemma SecretIsShownAsStars(stream: string, limit: nat, secrets: seq<string>, redacted: string, truncated: bool)
    requires IsRedaction(redacted, Tail(stream, limit), secrets)
    ensures ShowsNoSecret(stream, limit, secrets, redacted, truncated, Rendering(redacted, truncated))
  {
    hide Tail, Rendering, Notice, Origin, OccursAt, Masked, Clean;
    RenderingIsBoundedSlice(redacted, truncated);
    var shown, origin, notice :=
      Rendering(redacted, truncated), Origin(redacted, truncated), |Notice(redacted, truncated)|;
    var cut := |stream| - |Tail(stream, limit)|;
    forall i, k, start |
      && notice <= i < |shown| && 0 <= k < |secrets| && OccursAt(stream, secrets[k], start)
      && start <= StreamPosition(stream, limit, redacted, truncated, i) < start + |secrets[k]|
      ensures shown[i] == '*'
    {
      var at := origin + i - notice;
      assert shown[i] == shown[notice..][i - notice] == Cleaned(redacted)[at];
      OccurrenceInStreamIsMasked(stream, limit, secrets, k, start, cut + at);
      assert redacted[at] == '*';
      StarStaysClean();
    }
  }

  lemma StarStaysClean()
    ensures Clean('*') == '*'
  {
  }

  // ----- the writer

  /** Keeps as much of a stream as a diagnostic can show, and as many bytes more
      as the secrets are long. */
  class BoundedDiagnosticWriter {
    var value: string
    const limit: nat
    const secrets: seq<string>
    var truncated: bool
    /** Everything written so far. */
    ghost var stream: string
    ghost var rendered: bool

    ghost predicate Valid()
      reads this
    {
      && value == Tail(stream, limit)
      && (|stream| > limit ==> truncated)
      && (!rendered ==> (truncated <==> |stream| > limit))
    }

    constructor (secrets: seq<string>)
      ensures Valid() && stream == "" && !rendered && !truncated
      ensures this.secrets == NonEmpty(secrets) && limit == MAXIMUM_DIAGNOSTIC + TotalLength(secrets)
    {
      var bound := MAXIMUM_DIAGNOSTIC;
      var retained := [];
      for i := 0 to |secrets|
        invariant bound == MAXIMUM_DIAGNOSTIC + TotalLength(secrets[..i])
        invariant retained == NonEmpty(secrets[..i])
      {
        assert secrets[..i + 1][..i] == secrets[..i];
        if secrets[i] != "" {
          bound := bound + |secrets[i]|;
          retained := retained + [secrets[i]];
        }
      }
      assert secrets[..|secrets|] == secrets;
      this.secrets, this.limit := retained, bound;
      this.value, this.truncated := "", false;
      this.stream, this.rendered := "", false;
    }

    /** Appends to the stream, shifting out what no longer fits. */
    method Write(chunk: string) returns (count: nat)
      requires Valid()
      modifies this
      ensures Valid() && stream == old(stream) + chunk && rendered == old(rendered)
      ensures count == |chunk|
    {
      TailOfTail(stream, chunk, limit);
      stream := stream + chunk;
      count := |chunk|;
      if |chunk| > limit {
        value := chunk[|chunk| - limit..];
        truncated := true;
        return;
      }
      var excess := |value| + |chunk| - limit;
      if excess > 0 {
        value := value[excess..];
        truncated := true;
      }
      value := value + chunk;
    }

    /** Renders what was kept, redacted and bounded. */
    method String() returns (shown: string)
      requires Valid() && Ascii(value)
      modifies this`truncated, this`rendered
      ensures Valid() && rendered
      ensures exists redacted ::
        && IsRedaction(redacted, Tail(stream, limit), secrets) && shown == Rendering(redacted, old(truncated))
        && ShowsNoSecret(stream, limit, secrets, redacted, old(truncated), shown)
        && Shows(redacted, old(truncated), shown) && (truncated <==> old(truncated) || Notice(redacted, false) != "")
      ensures |shown| <= MAXIMUM_DIAGNOSTIC
    {
      rendered := true;
      var redacted := RedactDiagnosticSecrets(value, secrets);
      RenderingIsBoundedSlice(redacted, truncated);
      RenderingIsExact(redacted, truncated);
      SecretIsShownAsStars(stream, limit, secrets, redacted, truncated);
      var result := Trim(Cleaned(redacted));
      if result == "" {
        return "";
      }
      var room := MAXIMUM_DIAGNOSTIC;
      if truncated || |result| > room {
        truncated := true;
        room := room - |TRUNCATED|;
      }
      result := Tail(result, room);
      shown := if truncated then TRUNCATED + result else result;
    }
  }
}
