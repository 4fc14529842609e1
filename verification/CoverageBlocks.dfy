/** The uncovered blocks a coverage diagnostic keeps (internal/coverage/profile.go,
    incompleteReport). Blocks come out of a map in an arbitrary order; what is
    kept is nevertheless the first `K` of their sorted locations. */
module CoverageBlocks {
  import opened Wrappers
  import opened Sorting
  import opened Text

  datatype Block = Block(packagePath: string, statements: nat, covered: bool)

  datatype PackageFailure = PackageFailure(packagePath: string, missing: bool)

  datatype Limits = Limits(blocks: nat, bytes: nat)

  datatype Location = Location(packagePath: string, location: string)

  /** How names are shown: `locate` gives a block identity its quoted
      `file.go:coordinates`, when it has an admissible one, and `caption` gives a
      package path its quoted form, empty when it is not admissible. */
  datatype Naming = Naming(locate: string -> Option<string>, caption: string -> string)

  const LOCATION_BYTE_LIMIT: nat := 160
  const FOOTER_RESERVE: nat := 128

  // ----- which blocks are reported

  predicate LocationLe(a: Location, b: Location) {
    if a.packagePath == b.packagePath then LexLe(a.location, b.location) else LexLe(a.packagePath, b.packagePath)
  }

  lemma LocationOrder()
    ensures TotalOrder(LocationLe)
    ensures forall s: seq<Location> :: KeysDecide(s, LocationLe)
  {
    LexOrder();
    forall a, b, c | LocationLe(a, b) && LocationLe(b, c) ensures LocationLe(a, c) {
      LexTransitive(a.packagePath, b.packagePath, c.packagePath);
      if a.packagePath == c.packagePath != b.packagePath {
        LexAntisymmetric(a.packagePath, b.packagePath);
      }
    }
    forall a, b | LocationLe(a, b) && LocationLe(b, a) ensures a == b {
      if a.packagePath != b.packagePath {
        LexAntisymmetric(a.packagePath, b.packagePath);
      } else {
        LexAntisymmetric(a.location, b.location);
      }
    }
  }

  predicate Uncovered(b: Block, failed: set<string>) {
    b.packagePath in failed && b.statements != 0 && !b.covered
  }

  ghost function UncoveredBlocks(blocks: map<string, Block>, failed: set<string>): set<string> {
    set id | id in blocks && Uncovered(blocks[id], failed)
  }

  /** The location an uncovered block is listed under, if its name allows one. */
  function Candidate(b: Block, id: string, failed: set<string>, naming: Naming): (c: Option<Location>) {
    if !Uncovered(b, failed) then None
    else match naming.locate(id)
      case None => None
      case Some(shown) => if |shown| > LOCATION_BYTE_LIMIT then None else Some(Location(b.packagePath, shown))
  }

  ghost function Candidates(blocks: map<string, Block>, order: seq<string>, failed: set<string>,
                            naming: Naming): seq<Location>
    requires forall id | id in order :: id in blocks
  {
    if order == [] then []
    else
      var rest := Candidates(blocks, order[1..], failed, naming);
      match Candidate(blocks[order[0]], order[0], failed, naming)
      case None => rest
      case Some(c) => [c] + rest
  }

  function FirstOf<T>(s: seq<T>, n: nat): seq<T> {
    if |s| <= n then s else s[..n]
  }

  /** The reported locations, for one order of reading the map. */
  ghost function KeptIn(blocks: map<string, Block>, order: seq<string>, failed: set<string>, naming: Naming,
                        limit: nat): seq<Location>
    requires forall id | id in order :: id in blocks
  {
    FirstOf(Sort(Candidates(blocks, order, failed, naming), LocationLe), limit)
  }

  // ----- no enumeration order shows

  ghost function BagOf(blocks: map<string, Block>, failed: set<string>, naming: Naming): string -> multiset<Location> {
    (id: string) => if id !in blocks then multiset{} else
      match Candidate(blocks[id], id, failed, naming)
      case None => multiset{}
      case Some(c) => multiset{c}
  }

  lemma {:induction false} CandidatesAreBags(blocks: map<string, Block>, order: seq<string>, failed: set<string>,
                                             naming: Naming)
    requires forall id | id in order :: id in blocks
    ensures multiset(Candidates(blocks, order, failed, naming)) == Union(Map(BagOf(blocks, failed, naming), order))
  {
    if order != [] {
      CandidatesAreBags(blocks, order[1..], failed, naming);
      var bags := Map(BagOf(blocks, failed, naming), order);
      assert bags[1..] == Map(BagOf(blocks, failed, naming), order[1..]);
    }
  }

  lemma KeptForgetsOrder(blocks: map<string, Block>, a: seq<string>, b: seq<string>, failed: set<string>,
                         naming: Naming, limit: nat)
    requires Enumerates(a, blocks.Keys) && Enumerates(b, blocks.Keys)
    ensures KeptIn(blocks, a, failed, naming, limit) == KeptIn(blocks, b, failed, naming, limit)
  {
    EnumerationsAgree(a, b);
    CandidatesAreBags(blocks, a, failed, naming);
    CandidatesAreBags(blocks, b, failed, naming);
    MapPermutes(BagOf(blocks, failed, naming), a, b);
    UnionForgetsOrder(Map(BagOf(blocks, failed, naming), a), Map(BagOf(blocks, failed, naming), b));
    LocationOrder();
    SortForgetsOrder(Candidates(blocks, a, failed, naming), Candidates(blocks, b, failed, naming), LocationLe);
  }

  // ----- bounded insertion

  ghost predicate LowerBound(s: seq<Location>, x: Location, index: nat) {
    && index <= |s|
    && (forall i | 0 <= i < index :: !LocationLe(x, s[i]))
    && (forall i | index <= i < |s| :: LocationLe(x, s[i]))
  }

  lemma {:induction false} InsertAt(x: Location, s: seq<Location>, index: nat)
    requires LowerBound(s, x, index)
    ensures Insert(x, s, LocationLe) == s[..index] + [x] + s[index..]
    decreases |s|
  {
    if index == 0 {
    } else {
      InsertAt(x, s[1..], index - 1);
      assert s[..index] == [s[0]] + s[1..][..index - 1];
      assert s[index..] == s[1..][index - 1..];
    }
  }

  lemma BoundExtends(x: Location, s: seq<Location>, limit: nat, index: nat)
    requires TotalOrder(LocationLe) && Sorted(s, LocationLe)
    requires LowerBound(FirstOf(s, limit), x, index)
    requires index < limit
    ensures LowerBound(s, x, index)
  {
    forall i | index <= i < |s| ensures LocationLe(x, s[i]) {
      if i >= limit {
        assert LocationLe(x, FirstOf(s, limit)[index]);
        assert LocationLe(s[index], s[i]);
      }
    }
  }

  /** The first `limit` of a longer sorted list need only the first `limit` of the shorter. */
  lemma InsertFirst(x: Location, s: seq<Location>, limit: nat, index: nat)
    requires TotalOrder(LocationLe) && Sorted(s, LocationLe)
    requires LowerBound(FirstOf(s, limit), x, index)
    ensures index >= limit ==> FirstOf(Insert(x, s, LocationLe), limit) == FirstOf(s, limit)
    ensures index < limit ==> FirstOf(Insert(x, s, LocationLe), limit) == FirstOf(s[..index] + [x] + s[index..], limit)
  {
    if index < limit {
      BoundExtends(x, s, limit, index);
      InsertAt(x, s, index);
    } else {
      InsertKeepsPrefix(x, s, limit);
    }
  }

  lemma {:induction false} InsertKeepsPrefix(x: Location, s: seq<Location>, n: nat)
    requires n <= |s| && forall i | 0 <= i < n :: !LocationLe(x, s[i])
    ensures |Insert(x, s, LocationLe)| >= n && Insert(x, s, LocationLe)[..n] == s[..n]
  {
    if n == 0 {
    } else {
      InsertKeepsPrefix(x, s[1..], n - 1);
      assert s[..n] == [s[0]] + s[1..][..n - 1];
      assert Insert(x, s, LocationLe)[..n] == [s[0]] + Insert(x, s[1..], LocationLe)[..n - 1];
    }
  }

  /** `sort.Search` over the kept locations. */
  method Search(s: seq<Location>, x: Location) returns (index: nat)
    requires Sorted(s, LocationLe)
    ensures LowerBound(s, x, index)
  {
    LocationOrder();
    var high := |s|;
    index := 0;
    while index < high
      invariant index <= high <= |s|
      invariant forall i | 0 <= i < index :: !LocationLe(x, s[i])
      invariant forall i | high <= i < |s| :: LocationLe(x, s[i])
    {
      var middle := (index + high) / 2;
      if LocationLe(x, s[middle]) {
        forall i | middle <= i < |s| ensures LocationLe(x, s[i]) {
          assert i == middle || LocationLe(s[middle], s[i]);
        }
        high := middle;
      } else {
        forall i | 0 <= i <= middle ensures !LocationLe(x, s[i]) {
          assert i < middle ==> LocationLe(s[i], s[middle]);
        }
        index := middle + 1;
      }
    }
  }

  lemma FirstOfSplice<T>(s: seq<T>, x: T, limit: nat, index: nat)
    requires index < limit && index <= |s|
    ensures FirstOf(s[..index] + [x] + s[index..], limit)
      == FirstOf(FirstOf(s, limit)[..index] + [x] + FirstOf(s, limit)[index..], limit)
  {
    var kept := FirstOf(s, limit);
    var a, b := s[..index] + [x] + s[index..], kept[..index] + [x] + kept[index..];
    if |s| > limit {
      assert |a| == |s| + 1 && |b| == limit + 1;
      assert a[..limit] == b[..limit];
    }
  }

  lemma FirstOfSorted(s: seq<Location>, n: nat)
    requires Sorted(s, LocationLe)
    ensures Sorted(FirstOf(s, n), LocationLe)
  {
  }

  method InsertBounded(locations: seq<Location>, candidate: Location, limit: nat, ghost all: seq<Location>)
    returns (kept: seq<Location>)
    requires Sorted(all, LocationLe) && locations == FirstOf(all, limit)
    ensures kept == FirstOf(Insert(candidate, all, LocationLe), limit)
  {
    hide TotalOrder, Sorted, LocationLe, Insert;
    FirstOfSorted(all, limit);
    LocationOrder();
    var index := Search(locations, candidate);
    InsertFirst(candidate, all, limit, index);
    kept := locations;
    if index >= limit {
      return;
    }
    FirstOfSplice(all, candidate, limit, index);
    if |kept| < limit {
      kept := kept + [candidate];
    }
    kept := kept[..index + 1] + kept[index..|kept| - 1];
    kept := kept[index := candidate];
    assert kept == FirstOf(locations[..index] + [candidate] + locations[index..], limit);
  }

  /** Reading one more block: nothing, or one more candidate, to place. */
  lemma KeptStep(blocks: map<string, Block>, seen: seq<string>, id: string, failed: set<string>, naming: Naming)
    requires id in blocks && forall k | k in seen :: k in blocks
    ensures !Uncovered(blocks[id], failed) ==> Candidate(blocks[id], id, failed, naming).None?
    ensures
      var all := Candidates(blocks, seen, failed, naming);
      var next := Candidates(blocks, [id] + seen, failed, naming);
      match Candidate(blocks[id], id, failed, naming)
      case None => next == all
      case Some(c) => |next| == |all| + 1 && Sort(next, LocationLe) == Insert(c, Sort(all, LocationLe), LocationLe)
  {
    assert ([id] + seen)[1..] == seen;
    var all := Candidates(blocks, seen, failed, naming);
    match Candidate(blocks[id], id, failed, naming)
    case None =>
    case Some(c) => assert ([c] + all)[1..] == all;
  }

  lemma {:induction false} CandidatesFailed(blocks: map<string, Block>, order: seq<string>, failed: set<string>,
                                            naming: Naming)
    requires forall id | id in order :: id in blocks
    ensures forall l | l in Candidates(blocks, order, failed, naming) :: l.packagePath in failed
  {
    if order != [] {
      CandidatesFailed(blocks, order[1..], failed, naming);
    }
  }

  lemma EnumeratesOneMore(order: seq<string>, keys: set<string>, id: string)
    requires Enumerates(order, keys) && id !in keys
    ensures Enumerates([id] + order, keys + {id})
  {
  }

  lemma UncoveredStep(blocks: map<string, Block>, failed: set<string>, pending: set<string>, id: string)
    requires id in pending && pending <= blocks.Keys
    ensures |UncoveredBlocks(blocks, failed) - (pending - {id})| ==
      |UncoveredBlocks(blocks, failed) - pending| + if Uncovered(blocks[id], failed) then 1 else 0
  {
    var before, now := UncoveredBlocks(blocks, failed) - pending, UncoveredBlocks(blocks, failed) - (pending - {id});
    if Uncovered(blocks[id], failed) {
      assert now == before + {id};
    } else {
      assert now == before;
    }
  }

  /** One block: counted when uncovered, and placed when it can be shown. */
  method Place(blocks: map<string, Block>, id: string, failed: set<string>, naming: Naming, limit: nat,
               locations: seq<Location>, ghost order: seq<string>)
    returns (next: seq<Location>, counted: nat)
    requires id in blocks && forall k | k in order :: k in blocks
    requires locations == KeptIn(blocks, order, failed, naming, limit)
    ensures counted == if Uncovered(blocks[id], failed) then 1 else 0
    ensures next == KeptIn(blocks, [id] + order, failed, naming, limit)
  {
    hide Candidates, Candidate, Uncovered, Sort, Insert, LocationLe, Sorted, TotalOrder, FirstOf;
    LocationOrder();
    KeptStep(blocks, order, id, failed, naming);
    SortSorted(Candidates(blocks, order, failed, naming), LocationLe);
    next, counted := locations, 0;
    if !Uncovered(blocks[id], failed) {
      return;
    }
    counted := 1;
    var candidate := Candidate(blocks[id], id, failed, naming);
    if candidate.None? {
      return;
    }
    next := InsertBounded(locations, candidate.value, limit,
                          Sort(Candidates(blocks, order, failed, naming), LocationLe));
  }

  method Collect(blocks: map<string, Block>, failed: set<string>, naming: Naming, limit: nat)
    returns (locations: seq<Location>, uncovered: nat)
    ensures uncovered == |UncoveredBlocks(blocks, failed)|
    ensures forall order | Enumerates(order, blocks.Keys) :: locations == KeptIn(blocks, order, failed, naming, limit)
  {
    hide Candidates, Candidate, Uncovered, UncoveredBlocks, KeptIn, NoDuplicates;
    StartsEmpty(blocks, failed, naming, limit);
    locations, uncovered := [], 0;
    var pending := blocks.Keys;
    ghost var order: seq<string> := [];
    while pending != {}
      invariant pending <= blocks.Keys
      invariant Enumerates(order, blocks.Keys - pending)
      invariant uncovered == |UncoveredBlocks(blocks, failed) - pending|
      invariant locations == KeptIn(blocks, order, failed, naming, limit)
    {
      var id :| id in pending;
      var counted;
      locations, counted := Place(blocks, id, failed, naming, limit, locations, order);
      UncoveredStep(blocks, failed, pending, id);
      EnumeratesOneMore(order, blocks.Keys - pending, id);
      assert blocks.Keys - pending + {id} == blocks.Keys - (pending - {id});
      uncovered := uncovered + counted;
      order, pending := [id] + order, pending - {id};
    }
    CollectedAll(blocks, order, failed, naming, limit);
  }

  lemma CollectedAll(blocks: map<string, Block>, order: seq<string>, failed: set<string>, naming: Naming, limit: nat)
    requires Enumerates(order, blocks.Keys - {})
    ensures UncoveredBlocks(blocks, failed) - {} == UncoveredBlocks(blocks, failed)
    ensures var kept := KeptIn(blocks, order, failed, naming, limit);
      forall other | Enumerates(other, blocks.Keys) :: kept == KeptIn(blocks, other, failed, naming, limit)
  {
    forall other | Enumerates(other, blocks.Keys)
      ensures KeptIn(blocks, order, failed, naming, limit) == KeptIn(blocks, other, failed, naming, limit)
    {
      KeptForgetsOrder(blocks, order, other, failed, naming, limit);
    }
  }

  /** Each block contributes at most one candidate, and only when uncovered. */
  lemma {:induction false} CandidatesCounted(blocks: map<string, Block>, order: seq<string>, failed: set<string>,
                                             naming: Naming)
    requires NoDuplicates(order) && forall id | id in order :: id in blocks
    ensures |Candidates(blocks, order, failed, naming)| <= |set id | id in order && Uncovered(blocks[id], failed)|
  {
    if order != [] {
      var rest := order[1..];
      CandidatesCounted(blocks, rest, failed, naming);
      var before := set id | id in rest && Uncovered(blocks[id], failed);
      var now := set id | id in order && Uncovered(blocks[id], failed);
      if Uncovered(blocks[order[0]], failed) {
        assert now == before + {order[0]};
      } else {
        assert now == before;
      }
    }
  }

  lemma KeptCounted(blocks: map<string, Block>, order: seq<string>, failed: set<string>, naming: Naming, limit: nat)
    requires Enumerates(order, blocks.Keys)
    ensures var kept := KeptIn(blocks, order, failed, naming, limit);
      && Sorted(kept, LocationLe) && |kept| <= |UncoveredBlocks(blocks, failed)| && |kept| <= limit
      && forall l | l in kept :: l.packagePath in failed
  {
    CandidatesFailed(blocks, order, failed, naming);
    CandidatesCounted(blocks, order, failed, naming);
    assert UncoveredBlocks(blocks, failed) == set id | id in order && Uncovered(blocks[id], failed);
    KeptFacts(Candidates(blocks, order, failed, naming), limit);
  }

  lemma StartsEmpty(blocks: map<string, Block>, failed: set<string>, naming: Naming, limit: nat)
    ensures Enumerates<string>([], {}) && Candidates(blocks, [], failed, naming) == []
    ensures KeptIn(blocks, [], failed, naming, limit) == []
    ensures UncoveredBlocks(blocks, failed) - blocks.Keys == {} && blocks.Keys - blocks.Keys == {}
  {
  }

  lemma KeptFacts(all: seq<Location>, limit: nat)
    ensures var kept := FirstOf(Sort(all, LocationLe), limit);
      && Sorted(kept, LocationLe) && |kept| <= |all| && |kept| <= limit && forall l | l in kept :: l in all
  {
    LocationOrder();
    SortSorted(all, LocationLe);
    SortPermutes(all, LocationLe);
    SameBagSameMembers(Sort(all, LocationLe), all);
  }

  ghost function Enumeration(keys: set<string>): (order: seq<string>)
    ensures Enumerates(order, keys)
  {
    if keys == {} then [] else
      var id :| id in keys;
      EnumeratesOneMore(Enumeration(keys - {id}), keys - {id}, id);
      assert keys - {id} + {id} == keys;
      [id] + Enumeration(keys - {id})
  }
}
