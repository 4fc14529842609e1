/** The depth-first inspection of local actions under one budget. */
module LocalActions {
  import opened Wrappers
  import opened ActionGraph
  import opened UsePlaces

  datatype Failure =
    | NotCanonical | DepthExceeded | CycleDetected(name: string) | PathMissing | TooManyFiles
    | Unavailable | TooManyBytes | Unparsable | PolicyFailed | ImageNotPinned

  /** What the workflows themselves use. */
  ghost function RootUses(workflows: seq<Descriptor>): set<string> {
    set i, n | 0 <= i < |workflows| && n in DocumentUses(workflows[i]) :: n
  }

  ghost function DocumentUses(workflow: Descriptor): set<string> {
    if workflow.Descriptor? && workflow.document.Some? then Uses(workflow.document.value, []) else {}
  }

  /** The same, in the order in which they are met. */
  ghost function RootList(workflows: seq<Descriptor>): seq<string> {
    if workflows == [] then [] else RootList(workflows[..|workflows| - 1]) + DocumentUseList(workflows[|workflows| - 1])
  }

  ghost function DocumentUseList(workflow: Descriptor): seq<string> {
    if workflow.Descriptor? && workflow.document.Some? then UseList(workflow.document.value, []) else []
  }

  lemma {:induction false} RootListGrows(workflows: seq<Descriptor>, k: nat)
    requires k <= |workflows|
    ensures RootList(workflows[..k]) <= RootList(workflows)
    decreases |workflows| - k
  {
    if k == |workflows| {
      assert workflows[..k] == workflows;
    } else {
      assert workflows[..k + 1][..k] == workflows[..k];
      RootListGrows(workflows, k + 1);
    }
  }

  ghost function WorkflowBytes(workflows: seq<Descriptor>): nat {
    if workflows == [] then 0 else WorkflowBytes(workflows[..|workflows| - 1]) + Bytes(workflows[|workflows| - 1])
  }

  ghost function Bytes(workflow: Descriptor): nat {
    if workflow.Descriptor? then workflow.size else 0
  }

  lemma {:induction false} WorkflowBytesGrow(workflows: seq<Descriptor>, k: nat)
    requires k <= |workflows|
    ensures WorkflowBytes(workflows[..k]) <= WorkflowBytes(workflows)
    decreases |workflows| - k
  {
    if k == |workflows| {
      assert workflows[..k] == workflows;
    } else {
      assert workflows[..k + 1][..k] == workflows[..k];
      WorkflowBytesGrow(workflows, k + 1);
    }
  }

  lemma {:induction false} AllUseListGrows(nodes: seq<Node>, k: nat, path: seq<string>)
    requires k <= |nodes|
    ensures AllUseList(nodes[..k], path) <= AllUseList(nodes, path)
    decreases |nodes| - k
  {
    if k == |nodes| {
      assert nodes[..k] == nodes;
    } else {
      assert nodes[..k + 1][..k] == nodes[..k];
      AllUseListGrows(nodes, k + 1, path);
    }
  }

  lemma NoUses(path: seq<string>)
    ensures AllUseList([], path) == []
  {
  }

  /** How the list of uses grows by one node. */
  lemma AllUseListStep(nodes: seq<Node>, i: nat, path: seq<string>)
    requires i < |nodes|
    ensures AllUseList(nodes[..i + 1], path) == AllUseList(nodes[..i], path) + UseList(nodes[i], path)
    ensures AllUseList(nodes[..i + 1], path) <= AllUseList(nodes, path)
  {
    AllUseListGrows(nodes, i + 1, path);
    assert nodes[..i + 1][..i] == nodes[..i];
  }

  lemma {:induction false} PairsUseListGrows(pairs: seq<Pair>, k: nat, path: seq<string>)
    requires k <= |pairs|
    ensures PairsUseList(pairs[..k], path) <= PairsUseList(pairs, path)
    decreases |pairs| - k
  {
    if k == |pairs| {
      assert pairs[..k] == pairs;
    } else {
      assert pairs[..k + 1][..k] == pairs[..k];
      PairsUseListGrows(pairs, k + 1, path);
    }
  }

  lemma NoPairUses(path: seq<string>)
    ensures PairsUseList([], path) == []
  {
  }

  lemma PairsUseListStep(pairs: seq<Pair>, i: nat, path: seq<string>)
    requires i < |pairs|
    ensures PairsUseList(pairs[..i + 1], path) == PairsUseList(pairs[..i], path) + PairUseList(pairs[i], path)
    ensures PairsUseList(pairs[..i + 1], path) <= PairsUseList(pairs, path)
  {
    PairsUseListGrows(pairs, i + 1, path);
    assert pairs[..i + 1][..i] == pairs[..i];
  }

  /** The workflow can be read and has no finding of its own. */
  ghost predicate Clean(workflow: Descriptor) {
    && workflow.Descriptor? && workflow.size <= MAXIMUM_DESCRIPTOR_BYTES && workflow.document.Some?
    && workflow.findings == 0
  }

  /** The descriptor cannot be read, or is too large. */
  ghost predicate Refused(failure: Failure, descriptor: Descriptor) {
    && (failure.PathMissing? || failure.Unavailable?)
    && (descriptor.Descriptor? ==> descriptor.size > MAXIMUM_DESCRIPTOR_BYTES)
  }

  /** A chain longer than the limit, met when everything that the workflows use
      before its start was finished, and none of the chain before its last action. */
  ghost predicate TooDeep(repository: Repository, roots: seq<string>, order: seq<string>, path: seq<string>, k: nat) {
    && repository.IsPath(path) && |path| > MAXIMUM_DEPTH
    && k < |roots| && roots[k] == path[0] && (forall j | 0 <= j < k :: roots[j] in order)
    && forall i | 0 <= i < |path| - 1 :: path[i] !in order
  }

  /** Some action in use fails the policy on its own. */
  ghost predicate Blemished(repository: Repository, roots: set<string>) {
    exists n | repository.Reachable(roots, n) :: !repository.Passes(n)
  }

  /** What each failure says about the repository, with the actions of `order` finished. */
  ghost predicate JustifiedBy(repository: Repository, workflows: seq<Descriptor>, order: seq<string>,
                              failure: Failure) {
    var roots := RootUses(workflows);
    match failure
    case CycleDetected(name) => repository.OnCycle(name) && repository.Reachable(roots, name)
    case DepthExceeded => exists path, k ::
      path != [] && path[0] in roots && TooDeep(repository, RootList(workflows), order, path, k)
    case TooManyFiles => exists names | repository.Used(roots, names) :: |workflows| + |names| > MAXIMUM_FILES
    case TooManyBytes => exists names | repository.Used(roots, names) ::
      WorkflowBytes(workflows) + repository.TotalSize(names) > MAXIMUM_TOTAL_BYTES
    case _ => Blemished(repository, roots) || exists w | w in workflows :: !Clean(w)
  }

  /** Nothing is wrong with the workflows or with anything that they use: each can
      be read and passes, no use leads back, no chain of uses is longer than 32,
      and all of it together is within the budgets. */
  ghost predicate Harmless(repository: Repository, workflows: seq<Descriptor>) {
    var roots := RootUses(workflows);
    && (forall w | w in workflows :: Vetted(w))
    && (forall n | repository.Reachable(roots, n) :: Wholesome(repository, n) && !repository.OnCycle(n))
    && (forall path | repository.IsPath(path) && path[0] in roots :: |path| <= 32)
    && (forall names | repository.Used(roots, names) ::
          |workflows| + |names| <= 512 && WorkflowBytes(workflows) + repository.TotalSize(names) <= 0x200_0000)
  }

  /** Then there is nothing to fail for. */
  lemma NothingToBlame(repository: Repository, workflows: seq<Descriptor>, order: seq<string>, failure: Failure)
    requires Harmless(repository, workflows)
    ensures !JustifiedBy(repository, workflows, order, failure)
  {
    hide RootUses, Wholesome, Repository.Passes, Repository.IsPath, Repository.OnCycle, Repository.Used;
    forall n ensures repository.Passes(n) <==> Wholesome(repository, n) {
      PassesIsWholesome(repository, n);
    }
    assert MAXIMUM_DEPTH == 32 && MAXIMUM_FILES == 512 && MAXIMUM_TOTAL_BYTES == 0x200_0000;
  }

  /** What places in the workflows name is what the walk starts from. */
  lemma RootsAreNamed(workflows: seq<Descriptor>, w: Descriptor, name: string)
    requires w in workflows && Mentions(w, name)
    ensures name in RootUses(workflows)
  {
    UsesAreNames(w.document.value, name);
    var i :| 0 <= i < |workflows| && workflows[i] == w;
    assert name in DocumentUses(workflows[i]);
  }

  /** The order of completion: each action passes, and comes after all that its
      document names. */
  ghost predicate CompleteBelow(repository: Repository, order: seq<string>) {
    forall i | 0 <= i < |order| ::
      && Wholesome(repository, order[i])
      && forall name | Mentions(repository.find(order[i]), name) :: name in order[..i]
  }

  lemma SoundIsComplete(repository: Repository, roots: set<string>, order: seq<string>)
    requires repository.Sound(roots, order, [])
    ensures CompleteBelow(repository, order)
  {
    hide Repository.Near, Wholesome, Mentions, Repository.Next, Repository.Passes;
    forall i | 0 <= i < |order|
      ensures Wholesome(repository, order[i])
      ensures forall name | Mentions(repository.find(order[i]), name) :: name in order[..i]
    {
      assert order[i] in order;
      PassesIsWholesome(repository, order[i]);
      forall name | Mentions(repository.find(order[i]), name) ensures name in order[..i] {
        NextIsMentioned(repository, order[i], name);
      }
    }
  }

  class LocalActionInspection {
    const repository: Repository
    ghost const workflows: seq<Descriptor>
    var active: set<string>
    var complete: set<string>
    var files: nat
    var bytes: nat
    /** Finished actions, in the order in which they were finished. */
    ghost var order: seq<string>
    /** How many workflows have been read. */
    ghost var walked: nat
    /** What the workflows were found to use so far. */
    ghost var met: seq<string>

    constructor (repository: Repository, ghost workflows: seq<Descriptor>)
      ensures this.repository == repository && this.workflows == workflows
      ensures active == {} && complete == {} && files == 0 && bytes == 0 && order == [] && walked == 0 && met == []
    {
      this.repository, this.workflows := repository, workflows;
      active, complete, files, bytes, order, walked, met := {}, {}, 0, 0, [], 0, [];
    }

    ghost function Roots(): set<string> {
      RootUses(workflows)
    }

    /** `chain` is the stack of actions being inspected. */
    ghost predicate Consistent(chain: seq<string>)
      reads this
    {
      && active == Members(chain)
      && complete == Members(order)
      && repository.Sound(Roots(), order, chain)
      && walked <= |workflows|
    }

    /** The budget is charged once for each workflow and each action met. */
    ghost predicate Counted(chain: seq<string>)
      reads this
    {
      && walked <= |workflows|
      && repository.Budget(files, bytes, walked, WorkflowBytes(workflows[..walked]), order, chain)
    }

    /** All uses met are finished, but for the one at the start of the chain. */
    ghost predicate Met(chain: seq<string>)
      reads this`met, this`order
    {
      && met <= RootList(workflows)
      && (chain != [] ==> met != [] && met[|met| - 1] == chain[0])
      && forall j | 0 <= j < if chain == [] then |met| else |met| - 1 :: met[j] in order
    }

    ghost function Permitted(chain: seq<string>): set<string> {
      repository.Permitted(Roots(), chain)
    }

    ghost predicate Justified(failure: Failure)
      reads this`order
    {
      JustifiedBy(repository, workflows, order, failure)
    }

    /** Following one more use from a chain of the greatest length is too deep. */
    lemma TooDeepBelow(chain: seq<string>, name: string)
      requires Consistent(chain) && Met(chain) && chain != [] && |chain| >= MAXIMUM_DEPTH
      requires name in Permitted(chain)
      ensures Justified(DepthExceeded)
    {
      repository.ChainGrows(Roots(), chain, name);
      var path := chain + [name];
      assert repository.IsPath(path) && path[0] in Roots() && path[0] == met[|met| - 1];
      assert TooDeep(repository, RootList(workflows), order, path, |met| - 1);
    }

    method Local(reference: string, depth: nat, ghost chain: seq<string>) returns (failure: Option<Failure>)
      requires "./" <= reference && Consistent(chain) && Counted(chain)
      requires depth == |chain| + 1 <= MAXIMUM_DEPTH + 1
      requires ActionName(reference) in Permitted(chain)
      requires Met(chain) && (chain == [] ==> met + [ActionName(reference)] <= RootList(workflows))
      modifies this
      ensures Consistent(chain) && old(order) <= order && old(complete) <= complete && walked == old(walked)
      ensures failure.None? ==> ActionName(reference) in complete && Counted(chain) && Met(chain)
      ensures failure.None? ==> met == if chain == [] then old(met) + [ActionName(reference)] else old(met)
      ensures failure.Some? ==> Justified(failure.value)
      decreases MAXIMUM_DEPTH + 1 - depth, 0, Scalar("")
    {
      var name := ActionName(reference);
      repository.ChainGrows(Roots(), chain, name);
      if chain == [] {
        met := met + [name];
      }
      if name == "" || !repository.canonical(name) {
        assert !repository.Passes(name);
        return Some(NotCanonical);
      }
      if depth > MAXIMUM_DEPTH {
        TooDeepBelow(chain, name);
        return Some(DepthExceeded);
      }
      if name in active {
        repository.ChainCloses(chain, name);
        return Some(CycleDetected(name));
      }
      if name in complete {
        return None;
      }
      failure := Open(name, depth, chain);
    }

    /** Reads a descriptor and charges it to the budget. */
    method Charge(descriptor: Descriptor) returns (failure: Option<Failure>)
      requires files <= MAXIMUM_FILES && bytes <= MAXIMUM_TOTAL_BYTES
      modifies this`files, this`bytes
      ensures failure.None? ==> descriptor.Descriptor? && descriptor.size <= MAXIMUM_DESCRIPTOR_BYTES
      ensures failure.None? ==> files == old(files) + 1 <= MAXIMUM_FILES
      ensures failure.None? ==> bytes == old(bytes) + descriptor.size <= MAXIMUM_TOTAL_BYTES
      ensures failure.Some? ==> match failure.value
        case TooManyFiles => old(files) + 1 > MAXIMUM_FILES
        case TooManyBytes => descriptor.Descriptor? && old(bytes) + descriptor.size > MAXIMUM_TOTAL_BYTES
        case other => Refused(other, descriptor)
    {
      if descriptor.Missing? {
        return Some(PathMissing);
      }
      files := files + 1;
      if files > MAXIMUM_FILES {
        return Some(TooManyFiles);
      }
      if descriptor.Unreadable? || descriptor.size > MAXIMUM_DESCRIPTOR_BYTES {
        return Some(Unavailable);
      }
      bytes := bytes + descriptor.size;
      if bytes > MAXIMUM_TOTAL_BYTES {
        return Some(TooManyBytes);
      }
      failure := None;
    }

    /** Reads the descriptor of an action met for the first time, and inspects it. */
    method Open(name: string, depth: nat, ghost chain: seq<string>) returns (failure: Option<Failure>)
      requires Consistent(chain) && Counted(chain) && depth == |chain| + 1 <= MAXIMUM_DEPTH
      requires name in Permitted(chain) && name !in active && name !in complete
      requires name != "" && repository.canonical(name) && Met(chain + [name])
      modifies this
      ensures Consistent(chain) && old(order) <= order && old(complete) <= complete && walked == old(walked)
      ensures failure.None? ==> name in order && Counted(chain) && Met(chain) && met == old(met)
      ensures failure.Some? ==> Justified(failure.value)
      decreases MAXIMUM_DEPTH - depth, 3, Scalar("")
    {
      failure := Admit(name, chain);
      if failure.Some? {
        return;
      }
      active := active + {name};
      failure := Inspect(name, repository.find(name), depth, chain + [name]);
      Leave(name, failure.None?, chain);
    }

    /** Takes an action off the stack, marking it complete when it passed. */
    method Leave(name: string, passed: bool, ghost chain: seq<string>)
      requires Consistent(chain + [name])
      requires passed ==> Counted(chain + [name]) && repository.Passes(name) && repository.Next(name) <= complete
      requires passed ==> Met(chain + [name]) && |chain| < MAXIMUM_DEPTH
      modifies this`active, this`complete, this`order
      ensures Consistent(chain) && old(order) <= order && old(complete) <= complete
      ensures passed ==> Counted(chain) && name in order && Met(chain)
      ensures !passed ==> order == old(order)
    {
      hide Repository.Sound, Repository.Budget;
      repository.Leaving(Roots(), order, chain, name);
      active := active - {name};
      if passed {
        Complete(name, chain);
      }
    }

    method Complete(name: string, ghost chain: seq<string>)
      requires Consistent(chain) && repository.Sound(Roots(), order, chain + [name]) && Counted(chain + [name])
      requires repository.Passes(name) && repository.Next(name) <= complete && |chain| < MAXIMUM_DEPTH
      modifies this`complete, this`order
      ensures Consistent(chain) && Counted(chain) && order == old(order) + [name]
    {
      hide Repository.Sound;
      repository.Finishing(Roots(), order, chain, name);
      repository.BudgetFinishing(files, bytes, walked, WorkflowBytes(workflows[..walked]), order, chain, name);
      complete := complete + {name};
      order := order + [name];
    }

    /** Charges a new action to the budget. */
    method Admit(name: string, ghost chain: seq<string>) returns (failure: Option<Failure>)
      requires Consistent(chain) && Counted(chain)
      requires name in Permitted(chain) && name !in active && name !in complete
      modifies this`files, this`bytes
      ensures Consistent(chain)
      ensures failure.None? ==>
        repository.find(name).Descriptor? && repository.find(name).size <= MAXIMUM_DESCRIPTOR_BYTES
      ensures failure.None? ==> repository.Sound(Roots(), order, chain + [name]) && Counted(chain + [name])
      ensures failure.Some? ==> Justified(failure.value)
    {
      hide Repository.Sound;
      ghost var names := order + (chain + [name]);
      repository.Entering(Roots(), order, chain, name);
      repository.AllUsed(Roots(), order, chain + [name]);
      WorkflowBytesGrow(workflows, walked);
      failure := Charge(repository.find(name));
      if failure.Some? && Refused(failure.value, repository.find(name)) {
        assert name in names;
        assert repository.Reachable(Roots(), name) && !repository.Passes(name);
      }
    }

    method Inspect(ghost name: string, descriptor: Descriptor, depth: nat, ghost chain: seq<string>)
      returns (failure: Option<Failure>)
      requires Consistent(chain) && Counted(chain) && depth == |chain| <= MAXIMUM_DEPTH
      requires chain != [] && chain[|chain| - 1] == name && name != "" && repository.canonical(name)
      requires repository.find(name) == descriptor && descriptor.Descriptor?
      requires descriptor.size <= MAXIMUM_DESCRIPTOR_BYTES
      requires Met(chain)
      modifies this
      ensures Consistent(chain) && old(order) <= order && old(complete) <= complete && walked == old(walked)
      ensures failure.None? ==> repository.Passes(name) && repository.Next(name) <= complete && Counted(chain)
      ensures failure.None? ==> Met(chain) && met == old(met)
      ensures failure.Some? ==> Justified(failure.value)
      decreases MAXIMUM_DEPTH - depth, 2, Scalar("")
    {
      assert repository.Reachable(Roots(), name);
      if descriptor.document.None? {
        assert !repository.Passes(name);
        return Some(Unparsable);
      }
      if descriptor.findings != 0 {
        assert !repository.Passes(name);
        return Some(PolicyFailed);
      }
      failure := Walk(descriptor.document.value, [], depth, true, chain);
      if failure == Some(ImageNotPinned) && !ImagesPinned(descriptor.document.value, [], repository.pinned) {
        assert !repository.Passes(name);
      }
    }

    /** Visits every node below `node`, following local uses as they are met. */
    method Walk(node: Node, path: seq<string>, depth: nat, action: bool, ghost chain: seq<string>)
      returns (failure: Option<Failure>)
      requires Consistent(chain) && Counted(chain) && depth == |chain| <= MAXIMUM_DEPTH
      requires Uses(node, path) <= Permitted(chain)
      requires Met(chain) && (chain == [] ==> met + UseList(node, path) <= RootList(workflows))
      modifies this
      ensures Consistent(chain) && old(order) <= order && old(complete) <= complete && walked == old(walked)
      ensures failure.None? ==> Uses(node, path) <= complete && Counted(chain) && Met(chain)
      ensures failure.None? ==> met == if chain == [] then old(met) + UseList(node, path) else old(met)
      ensures failure.None? && action ==> ImagesPinned(node, path, repository.pinned)
      ensures failure.Some? && !Justified(failure.value) ==>
        failure.value.ImageNotPinned? && action && !ImagesPinned(node, path, repository.pinned)
      decreases MAXIMUM_DEPTH - depth, 1, node
    {
      hide Repository.Sound, JustifiedBy, Met, Counted, Consistent;
      match node {
        case Scalar(_) =>
          failure := None;
        case Alias(target) =>
          failure := Walk(target, path, depth, action, chain);
        case Mapping(pairs) =>
          failure := WalkPairs(pairs, path, depth, action, chain);
        case Sequence(items) =>
          failure := WalkAll(items, path + ["[]"], depth, action, chain);
        case Document(content) =>
          failure := WalkAll(content, path, depth, action, chain);
      }
    }

    method WalkAll(nodes: seq<Node>, path: seq<string>, depth: nat, action: bool, ghost chain: seq<string>)
      returns (failure: Option<Failure>)
      requires Consistent(chain) && Counted(chain) && depth == |chain| <= MAXIMUM_DEPTH
      requires forall i | 0 <= i < |nodes| :: Uses(nodes[i], path) <= Permitted(chain)
      requires Met(chain) && (chain == [] ==> met + AllUseList(nodes, path) <= RootList(workflows))
      modifies this
      ensures Consistent(chain) && old(order) <= order && old(complete) <= complete && walked == old(walked)
      ensures failure.None? ==> Counted(chain) && forall i | 0 <= i < |nodes| :: Uses(nodes[i], path) <= complete
      ensures failure.None? ==>
        Met(chain) && met == if chain == [] then old(met) + AllUseList(nodes, path) else old(met)
      ensures failure.None? && action ==> forall i | 0 <= i < |nodes| :: ImagesPinned(nodes[i], path, repository.pinned)
      ensures failure.Some? && !Justified(failure.value) ==>
        failure.value.ImageNotPinned? && action && exists i | 0 <= i < |nodes| ::
          !ImagesPinned(nodes[i], path, repository.pinned)
      decreases MAXIMUM_DEPTH - depth, 1, nodes
    {
      hide Repository.Sound, JustifiedBy, Met, Counted, Consistent, Uses, UseList, ImagesPinned, AllUseList;
      hide Repository.Permitted;
      NoUses(path);
      for i := 0 to |nodes|
        invariant Met(chain) && met == if chain == [] then old(met) + AllUseList(nodes[..i], path) else old(met)
        invariant Consistent(chain) && Counted(chain) && old(order) <= order && old(complete) <= complete
        invariant walked == old(walked)
        invariant forall k | 0 <= k < i :: Uses(nodes[k], path) <= complete
        invariant action ==> forall k | 0 <= k < i :: ImagesPinned(nodes[k], path, repository.pinned)
      {
        AllUseListStep(nodes, i, path);
        assert (old(met) + AllUseList(nodes[..i], path)) + UseList(nodes[i], path)
          == old(met) + AllUseList(nodes[..i + 1], path);
        failure := Walk(nodes[i], path, depth, action, chain);
        if failure.Some? {
          return;
        }
      }
      assert nodes[..|nodes|] == nodes;
      failure := None;
    }

    method WalkPairs(pairs: seq<Pair>, path: seq<string>, depth: nat, action: bool, ghost chain: seq<string>)
      returns (failure: Option<Failure>)
      requires Consistent(chain) && Counted(chain) && depth == |chain| <= MAXIMUM_DEPTH
      requires forall i | 0 <= i < |pairs| :: PairUses(pairs[i], path) <= Permitted(chain)
      requires Met(chain) && (chain == [] ==> met + PairsUseList(pairs, path) <= RootList(workflows))
      modifies this
      ensures Consistent(chain) && old(order) <= order && old(complete) <= complete && walked == old(walked)
      ensures failure.None? ==> Counted(chain) && forall i | 0 <= i < |pairs| :: PairUses(pairs[i], path) <= complete
      ensures failure.None? ==>
        Met(chain) && met == if chain == [] then old(met) + PairsUseList(pairs, path) else old(met)
      ensures failure.None? && action ==> forall i | 0 <= i < |pairs| :: PairPinned(pairs[i], path, repository.pinned)
      ensures failure.Some? && !Justified(failure.value) ==>
        failure.value.ImageNotPinned? && action && exists i | 0 <= i < |pairs| ::
          !PairPinned(pairs[i], path, repository.pinned)
      decreases MAXIMUM_DEPTH - depth, 1, pairs
    {
      hide Repository.Sound, JustifiedBy, Met, Counted, Consistent, PairUses, PairPinned, PairUseList, PairsUseList;
      hide Repository.Permitted;
      NoPairUses(path);
      for i := 0 to |pairs|
        invariant Met(chain) && met == if chain == [] then old(met) + PairsUseList(pairs[..i], path) else old(met)
        invariant Consistent(chain) && Counted(chain) && old(order) <= order && old(complete) <= complete
        invariant walked == old(walked)
        invariant forall k | 0 <= k < i :: PairUses(pairs[k], path) <= complete
        invariant action ==> forall k | 0 <= k < i :: PairPinned(pairs[k], path, repository.pinned)
      {
        PairsUseListStep(pairs, i, path);
        assert (old(met) + PairsUseList(pairs[..i], path)) + PairUseList(pairs[i], path)
          == old(met) + PairsUseList(pairs[..i + 1], path);
        failure := WalkPair(pairs[i], path, depth, action, chain);
        if failure.Some? {
          return;
        }
      }
      assert pairs[..|pairs|] == pairs;
      failure := None;
    }

    method WalkPair(pair: Pair, path: seq<string>, depth: nat, action: bool, ghost chain: seq<string>)
      returns (failure: Option<Failure>)
      requires Consistent(chain) && Counted(chain) && depth == |chain| <= MAXIMUM_DEPTH
      requires PairUses(pair, path) <= Permitted(chain)
      requires Met(chain) && (chain == [] ==> met + PairUseList(pair, path) <= RootList(workflows))
      modifies this
      ensures Consistent(chain) && old(order) <= order && old(complete) <= complete && walked == old(walked)
      ensures failure.None? ==> PairUses(pair, path) <= complete && Counted(chain) && Met(chain)
      ensures failure.None? ==> met == if chain == [] then old(met) + PairUseList(pair, path) else old(met)
      ensures failure.None? && action ==> PairPinned(pair, path, repository.pinned)
      ensures failure.Some? && !Justified(failure.value) ==>
        failure.value.ImageNotPinned? && action && !PairPinned(pair, path, repository.pinned)
      decreases MAXIMUM_DEPTH - depth, 1, pair
    {
      hide Repository.Sound, JustifiedBy, Met, Counted, Consistent;
      if IsLocalUse(pair, path) {
        failure := Local(Text(Resolved(pair.value)), depth + 1, chain);
        if failure.Some? {
          return;
        }
      }
      if action && IsImage(pair, path) {
        if !Resolved(pair.value).Scalar? || !repository.pinned(Text(Resolved(pair.value))) {
          return Some(ImageNotPinned);
        }
      }
      failure := Walk(pair.value, ChildPath(path, pair.key), depth, action, chain);
    }

    /** Inspects every workflow and everything it uses. Findings in a workflow
        are reported only once all of them have been walked. */
    method CheckWorkflows(workflows: seq<Descriptor>) returns (failure: Option<Failure>)
      requires workflows == this.workflows
      requires active == {} && complete == {} && files == 0 && bytes == 0 && order == [] && walked == 0 && met == []
      modifies this
      ensures failure.None? ==> forall n | repository.Reachable(Roots(), n) ::
        n in order && repository.Passes(n) && !repository.OnCycle(n) && repository.Near(Roots(), n)
      ensures failure.None? ==> forall path | repository.IsPath(path) && path[0] in Roots() :: |path| <= |order|
      ensures failure.None? ==> repository.Used(Roots(), order)
      ensures failure.None? ==> forall w | w in workflows :: Clean(w)
      ensures failure.None? ==> files == |workflows| + |order| <= MAXIMUM_FILES
      ensures failure.None? ==> bytes == WorkflowBytes(workflows) + repository.TotalSize(order) <= MAXIMUM_TOTAL_BYTES
      ensures failure.None? ==> files <= 512 && bytes <= 0x200_0000 && CompleteBelow(repository, order)
      ensures failure.None? ==> forall w | w in workflows :: Vetted(w)
      ensures failure.None? ==> forall w, name | w in workflows && Mentions(w, name) :: name in order
      ensures failure.Some? ==> Justified(failure.value)
      ensures Harmless(repository, workflows) ==> failure.None?
    {
      hide JustifiedBy, Met, Clean, Repository.IsPath, Repository.OnCycle, Repository.Near, Repository.Passes;
      hide Repository.Reachable, Repository.Sound, Harmless, CompleteBelow, Mentions, Vetted;
      if Harmless(repository, workflows) {
        forall order, failure ensures !JustifiedBy(repository, workflows, order, failure) {
          NothingToBlame(repository, workflows, order, failure);
        }
      }
      NothingYet();
      var findings;
      failure, findings := VisitAll(workflows);
      if failure.Some? {
        return;
      }
      assert workflows[..|workflows|] == workflows;
      repository.AllReachableFinished(Roots(), order);
      if findings > 0 {
        UncleanJustifies(order);
        return Some(PolicyFailed);
      }
      SoundIsComplete(repository, Roots(), order);
      VettedRoots();
      failure := None;
    }

    /** With every workflow clean, all that they name is among the roots. */
    lemma VettedRoots()
      requires forall w | w in workflows :: Clean(w)
      ensures forall w | w in workflows :: Vetted(w)
      ensures forall w, name | w in workflows && Mentions(w, name) :: name in Roots()
    {
      hide Mentions, RootUses;
      forall w | w in workflows ensures Vetted(w) {
        assert Clean(w) && w == Descriptor(w.size, Some(w.document.value), 0);
      }
      forall w, name | w in workflows && Mentions(w, name) ensures name in Roots() {
        RootsAreNamed(workflows, w, name);
      }
    }

    /** The loop over the workflows. */
    method VisitAll(workflows: seq<Descriptor>) returns (failure: Option<Failure>, findings: nat)
      requires workflows == this.workflows && walked == 0 && met == []
      requires Consistent([]) && Counted([]) && Met([])
      modifies this
      ensures failure.None? ==> Consistent([]) && Counted([]) && walked == |workflows| && Roots() <= complete
      ensures failure.None? ==> (findings == 0 <==> forall k | 0 <= k < |workflows| :: Clean(workflows[k]))
      ensures failure.Some? ==> Justified(failure.value)
    {
      hide JustifiedBy, Consistent, Counted, Met, RootList, DocumentUses;
      NothingListed();
      findings := 0;
      for i := 0 to |workflows|
        invariant Consistent([]) && Counted([]) && walked == i
        invariant Met([]) && met == RootList(workflows[..i])
        invariant findings == 0 <==> forall k | 0 <= k < i :: Clean(workflows[k])
        invariant forall k | 0 <= k < i :: DocumentUses(workflows[k]) <= complete
      {
        failure := Visit(workflows[i]);
        if failure.Some? {
          return;
        }
        findings := findings + workflows[i].findings;
      }
      failure := None;
    }

    lemma NothingYet()
      requires active == {} && complete == {} && files == 0 && bytes == 0 && order == [] && walked == 0 && met == []
      ensures Consistent([]) && Counted([]) && Met([])
    {
      assert repository.Sound(Roots(), [], []);
    }

    lemma NothingListed()
      ensures RootList([]) == []
    {
    }

    lemma UncleanJustifies(order: seq<string>)
      requires exists k | 0 <= k < |workflows| :: !Clean(workflows[k])
      ensures JustifiedBy(repository, workflows, order, PolicyFailed)
    {
      var k :| 0 <= k < |workflows| && !Clean(workflows[k]);
      assert workflows[k] in workflows;
    }

    /** Reads and walks the next workflow. */
    method Visit(workflow: Descriptor) returns (failure: Option<Failure>)
      requires Consistent([]) && Counted([]) && walked < |workflows| && workflow == workflows[walked]
      requires Met([]) && met == RootList(workflows[..walked])
      modifies this
      ensures failure.None? ==> Consistent([]) && Counted([]) && walked == old(walked) + 1 && old(complete) <= complete
      ensures failure.None? ==> Met([]) && met == RootList(workflows[..walked])
      ensures failure.None? ==> DocumentUses(workflow) <= complete
      ensures failure.None? ==>
        workflow.Descriptor? && workflow.size <= MAXIMUM_DESCRIPTOR_BYTES && workflow.document.Some?
      ensures failure.Some? ==> Justified(failure.value)
    {
      hide Repository.Sound, Repository.Budget;
      assert workflow in workflows;
      failure := Read(workflow);
      if failure.Some? {
        return;
      }
      if workflow.document.None? {
        assert !Clean(workflow);
        return Some(Unparsable);
      }
      assert DocumentUses(workflow) <= Roots();
      RootListGrows(workflows, walked);
      assert workflows[..walked][..walked - 1] == workflows[..walked - 1];
      failure := Walk(workflow.document.value, [], 0, false, []);
    }

    /** Reads the next workflow. */
    method Read(workflow: Descriptor) returns (failure: Option<Failure>)
      requires Consistent([]) && Counted([]) && walked < |workflows| && workflow == workflows[walked]
      modifies this`files, this`bytes, this`walked
      ensures failure.None? ==> Consistent([]) && Counted([]) && walked == old(walked) + 1
      ensures failure.None? ==> workflow.Descriptor? && workflow.size <= MAXIMUM_DESCRIPTOR_BYTES
      ensures failure.Some? ==> Justified(failure.value)
    {
      assert workflows[..walked + 1][..walked] == workflows[..walked];
      WorkflowBytesGrow(workflows, walked + 1);
      repository.AllUsed(Roots(), order, []);
      failure := Charge(workflow);
      assert workflow in workflows;
      if failure.None? {
        walked := walked + 1;
      }
    }
  }
}
