/** The byte string an evidence digest is computed from: a semantic identity and
    named contents, each preceded by its length in eight bytes, names sorted.
    A Go string or byte slice is a `string` whose characters are its bytes. */
module Framing {
  import opened Wrappers
  import opened Sorting
  import opened Text

  ghost function Power256(k: nat): nat {
    if k == 0 then 1 else 256 * Power256(k - 1)
  }

  /** The last `k` base-256 digits of `n`, most significant first. */
  function BigEndian(n: nat, k: nat): (s: string)
    ensures |s| == k
  {
    if k == 0 then "" else BigEndian(n / 256, k - 1) + [(n % 256) as char]
  }

  function Number(s: string): nat {
    if s == "" then 0 else 256 * Number(s[..|s| - 1]) + s[|s| - 1] as int
  }

  function Part(value: string): string {
    BigEndian(|value|, 8) + value
  }

  function Frame(parts: seq<string>): string {
    if parts == [] then "" else Part(parts[0]) + Frame(parts[1..])
  }

  /** Reads back framed parts, or refuses a byte string that is not a frame. */
  function Deframe(bytes: string): Option<seq<string>>
    decreases |bytes|
  {
    if bytes == "" then Some([])
    else if |bytes| < 8 || |bytes| - 8 < Number(bytes[..8]) then None
    else
      var length := Number(bytes[..8]);
      match Deframe(bytes[8 + length..])
      case None => None
      case Some(rest) => Some([bytes[8..8 + length]] + rest)
  }

  lemma {:induction false} BigEndianDecodes(n: nat, k: nat)
    requires n < Power256(k)
    ensures Number(BigEndian(n, k)) == n
  {
    if k == 0 {
    } else {
      BigEndianDecodes(n / 256, k - 1);
      assert BigEndian(n, k)[..k - 1] == BigEndian(n / 256, k - 1);
    }
  }

  ghost predicate Framable(value: string) {
    |value| < Power256(8)
  }

  lemma EmptyDeframes()
    ensures Deframe("") == Some([])
  {
  }

  /** Deframing inverts framing. */
  lemma {:induction false} DeframeInvertsFrame(parts: seq<string>)
    requires forall i | 0 <= i < |parts| :: Framable(parts[i])
    ensures Deframe(Frame(parts)) == Some(parts)
  {
    hide Power256, BigEndian, Number, Deframe;
    if parts == [] {
      EmptyDeframes();
    } else {
      var head, rest := parts[0], Frame(parts[1..]);
      DeframeInvertsFrame(parts[1..]);
      BigEndianDecodes(|head|, 8);
      FirstPart(BigEndian(|head|, 8), head, rest);
      assert parts == [head] + parts[1..];
    }
  }

  lemma FirstPart(length: string, head: string, rest: string)
    requires |length| == 8 && Number(length) == |head| && Deframe(rest).Some?
    ensures Deframe(length + head + rest) == Some([head] + Deframe(rest).value)
  {
    hide Number;
    var bytes := length + head + rest;
    assert bytes[..8] == length;
    assert bytes[8..8 + |head|] == head;
    assert bytes[8 + |head|..] == rest;
  }

  lemma {:induction false} FrameConcatenates(a: seq<string>, b: seq<string>)
    ensures Frame(a + b) == Frame(a) + Frame(b)
  {
    if a == [] {
      assert a + b == b;
    } else {
      assert (a + b)[1..] == a[1..] + b;
      FrameConcatenates(a[1..], b);
    }
  }

  // ----- named contents

  /** Some order in which a map could be ranged over. */
  ghost function Enumerate(keys: set<string>): (names: seq<string>)
    ensures Enumerates(names, keys)
  {
    if keys == {} then [] else
      var name :| name in keys;
      [name] + Enumerate(keys - {name})
  }

  ghost function SortedNames(keys: set<string>): seq<string> {
    Sort(Enumerate(keys), LexLe)
  }

  lemma SortedEnumeration(names: seq<string>, keys: set<string>)
    requires Enumerates(names, keys)
    ensures Sort(names, LexLe) == SortedNames(keys)
    ensures Enumerates(SortedNames(keys), keys)
  {
    EnumerationsAgree(names, Enumerate(keys));
    LexOrder();
    LexKeysDecide(names);
    SortForgetsOrder(names, Enumerate(keys), LexLe);
    SortPermutes(names, LexLe);
    SameBagSameMembers(Sort(names, LexLe), names);
    NoDuplicatesBag(names);
    NoDuplicatesBag(Sort(names, LexLe));
  }

  /** Names and contents in alternation. */
  ghost function Pairs(names: seq<string>, content: map<string, string>): seq<string>
    requires forall name | name in names :: name in content
  {
    if names == [] then [] else [names[0], content[names[0]]] + Pairs(names[1..], content)
  }

  ghost function Unpaired(parts: seq<string>): map<string, string> {
    if |parts| < 2 then map[] else Unpaired(parts[2..])[parts[0] := parts[1]]
  }

  lemma {:induction false} UnpairedInvertsPairs(names: seq<string>, content: map<string, string>)
    requires NoDuplicates(names) && forall name | name in names :: name in content
    ensures Unpaired(Pairs(names, content)) == map name | name in names :: content[name]
  {
    if names == [] {
    } else {
      UnpairedInvertsPairs(names[1..], content);
      assert Pairs(names, content)[2..] == Pairs(names[1..], content);
      assert forall name :: name in names <==> name == names[0] || name in names[1..];
    }
  }

  /** What is hashed for a semantic identity and named contents. */
  ghost function Preimage(semanticIdentity: string, content: map<string, string>): string {
    var names := SortedNames(content.Keys);
    SortedEnumeration(Enumerate(content.Keys), content.Keys);
    Part(semanticIdentity) + Frame(Pairs(names, content))
  }

  /** Recovers the identity and the contents. */
  ghost function Unframe(bytes: string): Option<(string, map<string, string>)> {
    match Deframe(bytes)
    case None => None
    case Some(parts) => if parts == [] then None else Some((parts[0], Unpaired(parts[1..])))
  }

  ghost predicate AllFramable(semanticIdentity: string, content: map<string, string>) {
    Framable(semanticIdentity) && forall name | name in content :: Framable(name) && Framable(content[name])
  }

  lemma {:induction false} PairsFramable(names: seq<string>, content: map<string, string>)
    requires forall name | name in names :: name in content && Framable(name) && Framable(content[name])
    ensures forall i | 0 <= i < |Pairs(names, content)| :: Framable(Pairs(names, content)[i])
  {
    if names == [] {
    } else {
      PairsFramable(names[1..], content);
      assert names[0] in names;
    }
  }

  /** The pre-image has a decoder. */
  lemma UnframeInvertsPreimage(semanticIdentity: string, content: map<string, string>)
    requires AllFramable(semanticIdentity, content)
    ensures Unframe(Preimage(semanticIdentity, content)) == Some((semanticIdentity, content))
  {
    hide Framable, Part, Deframe, Pairs, Unpaired, SortedNames;
    var names := SortedNames(content.Keys);
    SortedEnumeration(Enumerate(content.Keys), content.Keys);
    var pairs := Pairs(names, content);
    PairsFramable(names, content);
    var parts := [semanticIdentity] + pairs;
    assert parts[1..] == pairs;
    assert Frame(parts) == Preimage(semanticIdentity, content);
    DeframeInvertsFrame(parts);
    UnpairedInvertsPairs(names, content);
    assert (map name | name in names :: content[name]) == content;
  }

  /** Different identities or contents give different pre-images. */
  lemma PreimageInjective(identityA: string, a: map<string, string>, identityB: string, b: map<string, string>)
    requires AllFramable(identityA, a) && AllFramable(identityB, b)
    requires Preimage(identityA, a) == Preimage(identityB, b)
    ensures identityA == identityB && a == b
  {
    UnframeInvertsPreimage(identityA, a);
    UnframeInvertsPreimage(identityB, b);
  }

  /** Collects the keys of a map in whatever order ranging over it yields. */
  method RangeOver(keys: set<string>) returns (names: seq<string>)
    ensures Enumerates(names, keys)
  {
    var remaining := keys;
    names := [];
    while remaining != {}
      invariant remaining <= keys && Enumerates(names, keys - remaining)
      decreases remaining
    {
      var name :| name in remaining;
      names, remaining := names + [name], remaining - {name};
    }
  }

  /** Appends each name and its content to what has been written. */
  method WriteParts(names: seq<string>, content: map<string, string>, before: string) returns (written: string)
    requires forall name | name in names :: name in content
    ensures written == before + Frame(Pairs(names, content))
  {
    hide Part;
    written := before;
    for i := 0 to |names|
      invariant written == before + Frame(Pairs(names[..i], content))
    {
      PairsExtend(names, i, content);
      written := written + Part(names[i]);
      written := written + Part(content[names[i]]);
    }
    assert names[..|names|] == names;
  }

  /** Computes the digest of named contents, whatever order the map is ranged in. */
  method Digest(semanticIdentity: string, content: map<string, string>, hash: string -> string) returns (digest: string)
    ensures digest == "sha256:" + hash(Preimage(semanticIdentity, content))
  {
    hide Part;
    var names := RangeOver(content.Keys);
    SortedEnumeration(names, content.Keys);
    var written := WriteParts(Sort(names, LexLe), content, Part(semanticIdentity));
    digest := "sha256:" + hash(written);
  }

  lemma PairsExtend(names: seq<string>, i: nat, content: map<string, string>)
    requires i < |names| && forall name | name in names :: name in content
    ensures Frame(Pairs(names[..i + 1], content)) ==
              Frame(Pairs(names[..i], content)) + (Part(names[i]) + Part(content[names[i]]))
  {
    PairsConcatenate(names[..i], [names[i]], content);
    assert names[..i + 1] == names[..i] + [names[i]];
    var last := Pairs([names[i]], content);
    assert last == [names[i], content[names[i]]];
    FrameConcatenates(Pairs(names[..i], content), last);
    var tail := [content[names[i]]];
    assert last[1..] == tail && tail[1..] == [];
    assert Frame(tail) == Part(content[names[i]]) + Frame([]);
    assert Frame(last) == Part(names[i]) + Frame(tail);
  }

  lemma {:induction false} PairsConcatenate(a: seq<string>, b: seq<string>, content: map<string, string>)
    requires forall name | name in a + b :: name in content
    ensures forall name | name in a || name in b :: name in a + b
    ensures Pairs(a + b, content) == Pairs(a, content) + Pairs(b, content)
  {
    if a == [] {
      assert a + b == b;
    } else {
      assert (a + b)[1..] == a[1..] + b;
      PairsConcatenate(a[1..], b, content);
    }
  }
}
