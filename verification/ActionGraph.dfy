/** Workflow documents, the local actions they use, and the graph these uses form. */
module ActionGraph {
  import opened Wrappers
  import opened Sorting

  const MAXIMUM_DEPTH := 32
  const MAXIMUM_FILES := 512
  const MAXIMUM_DESCRIPTOR_BYTES := 0x40_0000
  const MAXIMUM_TOTAL_BYTES := 0x200_0000

  datatype Node =
    | Scalar(value: string)
    | Mapping(pairs: seq<Pair>)
    | Sequence(items: seq<Node>)
    | Document(content: seq<Node>)
    | Alias(target: Node)

  datatype Pair = Pair(key: string, value: Node)

  /** A descriptor file: refused before it is counted, unreadable after, or read. */
  datatype Descriptor =
    | Missing
    | Unreadable
    | Descriptor(size: nat, document: Option<Node>, findings: nat)

  function Resolved(node: Node): Node {
    if node.Alias? then node.target else node
  }

  /** The text of a node; only scalars have any. */
  function Text(node: Node): string {
    if node.Scalar? then node.value else ""
  }

  predicate StepPath(path: seq<string>) {
    || (|path| == 4 && path[0] == "jobs" && path[2] == "steps" && path[3] == "[]")
    || (|path| == 3 && path[0] == "runs" && path[1] == "steps" && path[2] == "[]")
  }

  predicate UsesPath(path: seq<string>) {
    (|path| == 2 && path[0] == "jobs") || StepPath(path)
  }

  function ChildPath(path: seq<string>, key: string): seq<string> {
    if key == "<<" then path else path + [key]
  }

  predicate IsLocalUse(pair: Pair, path: seq<string>) {
    pair.key == "uses" && UsesPath(path) && "./" <= Text(Resolved(pair.value))
  }

  predicate IsImage(pair: Pair, path: seq<string>) {
    pair.key == "image" && path == ["runs"]
  }

  function ActionName(reference: string): string
    requires "./" <= reference
  {
    reference[2..]
  }

  ghost function Members(names: seq<string>): set<string> {
    set n | n in names
  }

  /** The local actions that a document names where actions can be used. */
  ghost function Uses(node: Node, path: seq<string>): set<string>
    decreases node
  {
    match node
    case Scalar(_) => {}
    case Alias(target) => Uses(target, path)
    case Mapping(pairs) => set i, n | 0 <= i < |pairs| && n in PairUses(pairs[i], path) :: n
    case Sequence(items) => set i, n | 0 <= i < |items| && n in Uses(items[i], path + ["[]"]) :: n
    case Document(content) => set i, n | 0 <= i < |content| && n in Uses(content[i], path) :: n
  }

  ghost function PairUses(pair: Pair, path: seq<string>): set<string>
    decreases pair
  {
    (if IsLocalUse(pair, path) then {ActionName(Text(Resolved(pair.value)))} else {}) +
    Uses(pair.value, ChildPath(path, pair.key))
  }

  // ----- uses in the order in which they are met

  function UseList(node: Node, path: seq<string>): seq<string>
    decreases node
  {
    match node
    case Scalar(_) => []
    case Alias(target) => UseList(target, path)
    case Mapping(pairs) => PairsUseList(pairs, path)
    case Sequence(items) => AllUseList(items, path + ["[]"])
    case Document(content) => AllUseList(content, path)
  }

  function AllUseList(nodes: seq<Node>, path: seq<string>): seq<string>
    decreases nodes
  {
    if nodes == [] then [] else AllUseList(nodes[..|nodes| - 1], path) + UseList(nodes[|nodes| - 1], path)
  }

  function PairsUseList(pairs: seq<Pair>, path: seq<string>): seq<string>
    decreases pairs
  {
    if pairs == [] then [] else PairsUseList(pairs[..|pairs| - 1], path) + PairUseList(pairs[|pairs| - 1], path)
  }

  function PairUseList(pair: Pair, path: seq<string>): seq<string>
    decreases pair
  {
    (if IsLocalUse(pair, path) then [ActionName(Text(Resolved(pair.value)))] else [])
   + UseList(pair.value, ChildPath(path, pair.key))
  }

  /** The list names exactly the uses. */
  lemma {:induction false} UseListMembers(node: Node, path: seq<string>)
    ensures forall n :: n in UseList(node, path) <==> n in Uses(node, path)
    decreases node
  {
    match node
    case Scalar(_) =>
    case Alias(target) => UseListMembers(target, path);
    case Mapping(pairs) => PairsUseListMembers(pairs, path);
    case Sequence(items) => AllUseListMembers(items, path + ["[]"]);
    case Document(content) => AllUseListMembers(content, path);
  }

  lemma {:induction false} AllUseListMembers(nodes: seq<Node>, path: seq<string>)
    ensures forall n :: n in AllUseList(nodes, path) <==> exists i :: 0 <= i < |nodes| && n in Uses(nodes[i], path)
    decreases nodes
  {
    if nodes != [] {
      var front := nodes[..|nodes| - 1];
      AllUseListMembers(front, path);
      UseListMembers(nodes[|nodes| - 1], path);
      assert forall i | 0 <= i < |front| :: front[i] == nodes[i];
    }
  }

  lemma {:induction false} PairsUseListMembers(pairs: seq<Pair>, path: seq<string>)
    ensures forall n ::
      n in PairsUseList(pairs, path) <==> exists i :: 0 <= i < |pairs| && n in PairUses(pairs[i], path)
    decreases pairs
  {
    if pairs != [] {
      var front, last := pairs[..|pairs| - 1], pairs[|pairs| - 1];
      PairsUseListMembers(front, path);
      UseListMembers(last.value, ChildPath(path, last.key));
      assert forall i | 0 <= i < |front| :: front[i] == pairs[i];
    }
  }

  /** Every container image an action runs is pinned. */
  ghost predicate ImagesPinned(node: Node, path: seq<string>, pinned: string -> bool)
    decreases node
  {
    match node
    case Scalar(_) => true
    case Alias(target) => ImagesPinned(target, path, pinned)
    case Mapping(pairs) => forall i | 0 <= i < |pairs| :: PairPinned(pairs[i], path, pinned)
    case Sequence(items) => forall i | 0 <= i < |items| :: ImagesPinned(items[i], path + ["[]"], pinned)
    case Document(content) => forall i | 0 <= i < |content| :: ImagesPinned(content[i], path, pinned)
  }

  ghost predicate PairPinned(pair: Pair, path: seq<string>, pinned: string -> bool)
    decreases pair
  {
    && (IsImage(pair, path) ==> Resolved(pair.value).Scalar? && pinned(Text(Resolved(pair.value))))
    && ImagesPinned(pair.value, ChildPath(path, pair.key), pinned)
  }

  /** The repository under inspection: its descriptors by action name, which
      names are canonical, and which image references are immutable. */
  datatype Repository = Repository(find: string -> Descriptor, canonical: string -> bool, pinned: string -> bool) {

    ghost function Next(name: string): set<string> {
      match find(name)
      case Descriptor(_, Some(document), _) => Uses(document, [])
      case _ => {}
    }

    ghost function Size(name: string): nat {
      if find(name).Descriptor? then find(name).size else 0
    }

    /** The action meets the policy on its own. */
    ghost predicate Passes(name: string) {
      && name != "" && canonical(name)
      && match find(name)
         case Descriptor(size, Some(document), findings) =>
           size <= MAXIMUM_DESCRIPTOR_BYTES && findings == 0 && ImagesPinned(document, [], pinned)
         case _ => false
    }

    ghost predicate IsPath(path: seq<string>) {
      |path| > 0 && forall i | 0 <= i < |path| - 1 :: path[i + 1] in Next(path[i])
    }

    ghost predicate Leads(from: string, to: string, path: seq<string>) {
      IsPath(path) && path[0] == from && path[|path| - 1] == to
    }

    /** `name` is used, directly or not, by something that uses `roots`. */
    ghost predicate Reachable(roots: set<string>, name: string) {
      exists path :: IsPath(path) && path[0] in roots && path[|path| - 1] == name
    }

    /** Some chain of uses returns to `name`. */
    ghost predicate OnCycle(name: string) {
      exists path :: |path| > 1 && Leads(name, name, path)
    }

    // ----- completion order

    /** Each action comes after everything it uses. */
    ghost predicate Topological(order: seq<string>) {
      forall i, n | 0 <= i < |order| && n in Next(order[i]) :: n in order[..i]
    }

    ghost function TotalSize(names: seq<string>): nat {
      if names == [] then 0 else TotalSize(names[..|names| - 1]) + Size(names[|names| - 1])
    }

    /** Along a path, completion order only goes back. */
    lemma {:induction false} PathGoesBack(order: seq<string>, path: seq<string>, at: nat)
      requires Topological(order) && IsPath(path)
      requires at < |order| && order[at] == path[0]
      ensures |path| > 1 ==> path[|path| - 1] in order[..at]
      ensures path[|path| - 1] in order
      decreases |path|
    {
      if |path| > 1 {
        assert path[1] in Next(path[0]);
        var next :| 0 <= next < at && order[next] == path[1];
        assert IsPath(path[1..]) by {
          forall i | 0 <= i < |path[1..]| - 1 ensures path[1..][i + 1] in Next(path[1..][i]) {
            assert path[(i + 1) + 1] in Next(path[i + 1]);
          }
        }
        PathGoesBack(order, path[1..], next);
        if |path| > 2 {
          assert path[1..][|path[1..]| - 1] in order[..next];
        }
      }
    }

    /** A path is no longer than its start is late in completion order. */
    lemma {:induction false} PathFitsOrder(order: seq<string>, path: seq<string>, at: nat)
      requires Topological(order) && IsPath(path)
      requires at < |order| && order[at] == path[0]
      ensures |path| <= at + 1
      decreases |path|
    {
      if |path| > 1 {
        assert path[1] in Next(path[0]);
        var next :| 0 <= next < at && order[next] == path[1];
        assert IsPath(path[1..]) by {
          forall i | 0 <= i < |path[1..]| - 1 ensures path[1..][i + 1] in Next(path[1..][i]) {
            assert path[(i + 1) + 1] in Next(path[i + 1]);
          }
        }
        PathFitsOrder(order, path[1..], next);
      }
    }

    /** Some chain of uses within the depth limit leads from a root to `name`. */
    ghost predicate Near(roots: set<string>, name: string) {
      exists path :: IsPath(path) && path[0] in roots && path[|path| - 1] == name && |path| <= MAXIMUM_DEPTH
    }

    /** Everything reachable from finished actions is finished, and none of it is on a cycle. */
    lemma FinishedIsClosedAndAcyclic(order: seq<string>, roots: set<string>, name: string)
      requires Topological(order) && forall n | n in roots :: n in order
      requires forall i, j | 0 <= i < j < |order| :: order[i] != order[j]
      requires Reachable(roots, name)
      ensures name in order && !OnCycle(name)
    {
      var path :| IsPath(path) && path[0] in roots && path[|path| - 1] == name;
      var at :| 0 <= at < |order| && order[at] == path[0];
      PathGoesBack(order, path, at);
      if OnCycle(name) {
        var cycle :| |cycle| > 1 && Leads(name, name, cycle);
        var here :| 0 <= here < |order| && order[here] == name;
        PathGoesBack(order, cycle, here);
      }
    }

    lemma PathExtends(path: seq<string>, next: string)
      requires IsPath(path) && next in Next(path[|path| - 1])
      ensures IsPath(path + [next])
    {
      var longer := path + [next];
      forall i | 0 <= i < |longer| - 1 ensures longer[i + 1] in Next(longer[i]) {
        if i < |path| - 1 {
          assert path[i + 1] in Next(path[i]);
        }
      }
    }

    lemma ReachableExtends(roots: set<string>, name: string, next: string)
      requires Reachable(roots, name) && next in Next(name)
      ensures Reachable(roots, next)
    {
      var path :| IsPath(path) && path[0] in roots && path[|path| - 1] == name;
      PathExtends(path, next);
      assert (path + [next])[|path|] == next;
    }

    /** A use of something on the current chain closes a cycle. */
    lemma ChainCloses(chain: seq<string>, name: string)
      requires chain != [] && IsPath(chain) && name in chain && name in Next(chain[|chain| - 1])
      ensures OnCycle(name)
    {
      var k :| 0 <= k < |chain| && chain[k] == name;
      var tail := chain[k..];
      forall i | 0 <= i < |tail| - 1 ensures tail[i + 1] in Next(tail[i]) {
        assert chain[(k + i) + 1] in Next(chain[k + i]);
      }
      PathExtends(tail, name);
      assert Leads(name, name, tail + [name]);
    }

    lemma ChainGrows(roots: set<string>, chain: seq<string>, name: string)
      requires chain == [] ==> name in roots
      requires chain != [] ==> IsPath(chain) && name in Next(chain[|chain| - 1]) && Reachable(roots, chain[|chain| - 1])
      ensures IsPath(chain + [name]) && Reachable(roots, name)
    {
      if chain == [] {
        assert IsPath([name]) && [name][0] in roots && [name][|[name]| - 1] == name;
      } else {
        PathExtends(chain, name);
        ReachableExtends(roots, chain[|chain| - 1], name);
      }
    }

    ghost function Permitted(roots: set<string>, chain: seq<string>): set<string> {
      if chain == [] then roots else Next(chain[|chain| - 1])
    }

    /** Distinct actions, all in use. */
    ghost predicate Used(roots: set<string>, names: seq<string>) {
      NoDuplicates(names) && forall n | n in names :: Reachable(roots, n)
    }

    /** What an inspection knows of the finished actions and of the chain it is in. */
    ghost predicate Sound(roots: set<string>, order: seq<string>, chain: seq<string>) {
      && Used(roots, order) && Used(roots, chain) && (forall n | n in chain :: n !in order)
      && Topological(order)
      && (forall n | n in order :: Passes(n) && Near(roots, n))
      && (chain != [] ==> IsPath(chain) && chain[0] in roots)
    }

    ghost function Charge(order: seq<string>, chain: seq<string>): nat {
      TotalSize(order) + TotalSize(chain)
    }

    /** One file, and its size, for each workflow and each action met so far. */
    ghost predicate Budget(files: nat, bytes: nat, workflows: nat, workflowBytes: nat, order: seq<string>,
                           chain: seq<string>) {
      && files == workflows + |order| + |chain| <= MAXIMUM_FILES
      && bytes == workflowBytes + Charge(order, chain) <= MAXIMUM_TOTAL_BYTES
    }

    lemma BudgetFinishing(files: nat, bytes: nat, workflows: nat, workflowBytes: nat,
                          order: seq<string>, chain: seq<string>, name: string)
      requires Budget(files, bytes, workflows, workflowBytes, order, chain + [name])
      ensures Budget(files, bytes, workflows, workflowBytes, order + [name], chain)
    {
      assert (order + [name])[..|order|] == order;
      assert (chain + [name])[..|chain|] == chain;
    }

    lemma Entering(roots: set<string>, order: seq<string>, chain: seq<string>, name: string)
      requires Sound(roots, order, chain) && name in Permitted(roots, chain)
      requires name !in order && name !in chain
      ensures Sound(roots, order, chain + [name])
      ensures Charge(order, chain + [name]) == Charge(order, chain) + Size(name)
    {
      ChainGrows(roots, chain, name);
      assert (chain + [name])[..|chain|] == chain;
    }

    lemma Leaving(roots: set<string>, order: seq<string>, chain: seq<string>, name: string)
      requires Sound(roots, order, chain + [name])
      ensures Sound(roots, order, chain)
      ensures Members(chain) == Members(chain + [name]) - {name}
    {
      var longer := chain + [name];
      forall n | n in chain ensures n in longer && n != name {
        var i :| 0 <= i < |chain| && chain[i] == n;
        assert longer[i] != longer[|chain|];
      }
      forall i, j | 0 <= i < j < |chain| ensures chain[i] != chain[j] {
        assert longer[i] != longer[j];
      }
      forall i | 0 <= i < |chain| - 1 ensures chain[i + 1] in Next(chain[i]) {
        assert longer[i + 1] in Next(longer[i]);
      }
    }

    lemma Finishing(roots: set<string>, order: seq<string>, chain: seq<string>, name: string)
      requires Sound(roots, order, chain + [name]) && Passes(name) && |chain| < MAXIMUM_DEPTH
      requires forall n | n in Next(name) :: n in order
      ensures Sound(roots, order + [name], chain)
      ensures Members(order + [name]) == Members(order) + {name}
    {
      hide Topological, IsPath, Passes, Next;
      assert Near(roots, name) by {
        var path := chain + [name];
        assert IsPath(path) && path[0] in roots && path[|path| - 1] == name;
      }
      Leaving(roots, order, chain, name);
      OneMore(order, name);
      assert name in chain + [name];
      forall n | n in chain ensures n !in order + [name] {
        var i :| 0 <= i < |chain| && chain[i] == n;
        assert (chain + [name])[i] != (chain + [name])[|chain|];
      }
    }

    lemma {:induction false} TotalSizeAdds(a: seq<string>, b: seq<string>)
      ensures TotalSize(a + b) == TotalSize(a) + TotalSize(b)
    {
      if b == [] {
        assert a + b == a;
      } else {
        TotalSizeAdds(a, b[..|b| - 1]);
        assert (a + b)[..|a + b| - 1] == a + b[..|b| - 1];
      }
    }

    lemma AllUsed(roots: set<string>, order: seq<string>, chain: seq<string>)
      requires Sound(roots, order, chain)
      ensures Used(roots, order + chain)
      ensures TotalSize(order + chain) == Charge(order, chain)
    {
      TotalSizeAdds(order, chain);
      var all := order + chain;
      forall i, j | 0 <= i < j < |all| ensures all[i] != all[j] {
        if i < |order| <= j {
          assert chain[j - |order|] !in order;
        }
      }
    }

    /** What completion of everything the roots name says of the whole graph. */
    lemma AllReachableFinished(roots: set<string>, order: seq<string>)
      requires Sound(roots, order, []) && forall n | n in roots :: n in order
      ensures Used(roots, order)
      ensures forall n | Reachable(roots, n) :: n in order && Passes(n) && !OnCycle(n) && Near(roots, n)
      ensures forall path | IsPath(path) && path[0] in roots :: |path| <= |order|
    {
      hide IsPath, OnCycle, Passes, Near, Topological;
      forall n | Reachable(roots, n) ensures n in order && Passes(n) && !OnCycle(n) && Near(roots, n) {
        FinishedIsClosedAndAcyclic(order, roots, n);
      }
      AllPathsFit(roots, order);
    }

    lemma AllPathsFit(roots: set<string>, order: seq<string>)
      requires Topological(order) && forall n | n in roots :: n in order
      ensures forall path | IsPath(path) && path[0] in roots :: |path| <= |order|
    {
      hide Topological;
      forall path | IsPath(path) && path[0] in roots ensures |path| <= |order| {
        var at :| 0 <= at < |order| && order[at] == path[0];
        PathFitsOrder(order, path, at);
      }
    }

    lemma OneMore(order: seq<string>, name: string)
      requires Topological(order) && forall n | n in Next(name) :: n in order
      ensures Topological(order + [name])
      ensures TotalSize(order + [name]) == TotalSize(order) + Size(name)
    {
      var more := order + [name];
      assert more[..|order|] == order;
      forall i, n | 0 <= i < |more| && n in Next(more[i]) ensures n in more[..i] {
        if i < |order| {
          assert more[..i] == order[..i];
        }
      }
    }
  }
}
