/** The depth limit bounds the chain that is being walked, not every chain. A
    ladder of actions, each using the next, is accepted however long it is when
    the workflow uses its last action first: every action is then met directly,
    with what it uses already finished. */
module DeepChains {
  import opened Wrappers
  import opened Sorting
  import opened ActionGraph
  import opened LocalActions

  function Name(i: nat): (name: string)
    ensures |name| == i && forall k | 0 <= k < i :: name[k] == 'a'
  {
    seq(i, _ => 'a')
  }

  predicate IsRung(name: string, n: nat) {
    1 <= |name| <= n && forall k | 0 <= k < |name| :: name[k] == 'a'
  }

  lemma RungIsName(name: string, n: nat)
    requires IsRung(name, n)
    ensures name == Name(|name|)
  {
  }

  function Step(i: nat): Node {
    Mapping([Pair("uses", Scalar("./" + Name(i)))])
  }

  /** The first `count` steps of a job that uses action `n`, then the one below it, and so on. */
  function Steps(n: nat, count: nat): seq<Node>
    requires count <= n
  {
    if count == 0 then [] else Steps(n, count - 1) + [Step(n - count + 1)]
  }

  function Down(n: nat, count: nat): (names: seq<string>)
    requires count <= n
    ensures |names| == count && forall k | 0 <= k < count :: names[k] == Name(n - k)
  {
    if count == 0 then [] else Down(n, count - 1) + [Name(n - count + 1)]
  }

  /** Action `i` uses action `i + 1`, and the last uses none. */
  function Rung(i: nat, n: nat): Node {
    if i < n then Mapping([Pair("runs", Mapping([Pair("steps", Sequence([Step(i + 1)]))]))]) else Mapping([])
  }

  function Ladder(n: nat): Repository {
    Repository((name: string) => if IsRung(name, n) then Descriptor(0, Some(Rung(|name|, n)), 0) else Missing,
               _ => true, _ => true)
  }

  function TopDown(n: nat): Descriptor {
    var all := Pair("all", Mapping([Pair("steps", Sequence(Steps(n, n)))]));
    Descriptor(0, Some(Mapping([Pair("jobs", Mapping([all]))])), 0)
  }

  // ----- what these documents use

  lemma StepUses(i: nat, path: seq<string>)
    requires StepPath(path)
    ensures UseList(Step(i), path) == [Name(i)]
  {
    var pair := Pair("uses", Scalar("./" + Name(i)));
    assert IsLocalUse(pair, path) && ActionName("./" + Name(i)) == Name(i);
    assert PairUseList(pair, path) == [Name(i)] + UseList(pair.value, ChildPath(path, "uses"));
    OnlyPair(pair, path);
  }

  lemma OnlyPair(pair: Pair, path: seq<string>)
    ensures UseList(Mapping([pair]), path) == PairUseList(pair, path)
  {
    hide PairUseList;
    assert [pair][..0] == [];
    assert PairsUseList([pair], path) == PairsUseList([], path) + PairUseList(pair, path);
  }

  lemma Inside(key: string, value: Node, path: seq<string>)
    requires key != "uses" && key != "<<"
    ensures UseList(Mapping([Pair(key, value)]), path) == UseList(value, path + [key])
  {
    OnlyPair(Pair(key, value), path);
  }

  lemma {:induction false} StepsUses(n: nat, count: nat, path: seq<string>)
    requires count <= n && StepPath(path)
    ensures AllUseList(Steps(n, count), path) == Down(n, count)
  {
    if count > 0 {
      StepsUses(n, count - 1, path);
      StepUses(n - count + 1, path);
      assert Steps(n, count)[..count - 1] == Steps(n, count - 1) by {
        StepsLength(n, count - 1);
      }
      StepsLength(n, count);
    }
  }

  lemma {:induction false} StepsLength(n: nat, count: nat)
    requires count <= n
    ensures |Steps(n, count)| == count
  {
    if count > 0 {
      StepsLength(n, count - 1);
    }
  }

  lemma TopDownUses(n: nat)
    ensures RootList([TopDown(n)]) == Down(n, n)
    ensures forall name :: name in RootUses([TopDown(n)]) <==> name in Down(n, n)
  {
    hide UseList, Uses, Steps, Down;
    var steps := Sequence(Steps(n, n));
    var job := Mapping([Pair("steps", steps)]);
    var jobs := Mapping([Pair("all", job)]);
    var document := TopDown(n).document.value;
    Inside("jobs", jobs, []);
    Inside("all", job, ["jobs"]);
    Inside("steps", steps, ["jobs", "all"]);
    assert [] + ["jobs"] == ["jobs"] && ["jobs"] + ["all"] == ["jobs", "all"]
      && ["jobs", "all"] + ["steps"] == ["jobs", "all", "steps"];
    SequenceUses(Steps(n, n), ["jobs", "all", "steps"]);
    assert ["jobs", "all", "steps"] + ["[]"] == ["jobs", "all", "steps", "[]"];
    StepsUses(n, n, ["jobs", "all", "steps", "[]"]);
    UseListMembers(document, []);
    OneRoot(TopDown(n));
  }

  lemma SequenceUses(items: seq<Node>, path: seq<string>)
    ensures UseList(Sequence(items), path) == AllUseList(items, path + ["[]"])
  {
  }

  lemma OneRoot(workflow: Descriptor)
    ensures RootList([workflow]) == DocumentUseList(workflow)
    ensures RootUses([workflow]) == DocumentUses(workflow)
  {
    assert [workflow][..0] == [];
    assert RootList([workflow]) == RootList([]) + DocumentUseList(workflow);
    assert [workflow][0] == workflow;
  }

  lemma RungUses(i: nat, n: nat)
    ensures forall name :: name in Uses(Rung(i, n), []) <==> i < n && name == Name(i + 1)
  {
    hide UseList, Uses;
    UseListMembers(Rung(i, n), []);
    if i < n {
      var steps := Sequence([Step(i + 1)]);
      Inside("runs", Mapping([Pair("steps", steps)]), []);
      Inside("steps", steps, ["runs"]);
      assert [] + ["runs"] == ["runs"] && ["runs"] + ["steps"] == ["runs", "steps"];
      assert ["runs", "steps"] + ["[]"] == ["runs", "steps", "[]"];
      SequenceUses([Step(i + 1)], ["runs", "steps"]);
      StepUses(i + 1, ["runs", "steps", "[]"]);
      OneNode(Step(i + 1), ["runs", "steps", "[]"]);
    } else {
      EmptyMapping();
    }
  }

  lemma OneNode(node: Node, path: seq<string>)
    ensures AllUseList([node], path) == UseList(node, path)
  {
    hide UseList;
    assert [node][..0] == [];
    assert AllUseList([node], path) == AllUseList([], path) + UseList(node, path);
  }

  lemma EmptyMapping()
    ensures UseList(Mapping([]), []) == []
  {
  }

  // ----- the ladder as a graph

  lemma NextRung(n: nat, name: string, next: string)
    ensures next in Ladder(n).Next(name) <==> IsRung(name, n) && |name| < n && next == Name(|name| + 1)
  {
    RungUses(|name|, n);
  }

  lemma RungPasses(n: nat, name: string)
    requires IsRung(name, n)
    ensures Ladder(n).Passes(name)
  {
    RungPinned(|name|, n);
  }

  lemma RungPinned(i: nat, n: nat)
    ensures ImagesPinned(Rung(i, n), [], Ladder(n).pinned)
  {
    if i < n {
      var step := Step(i + 1);
      var pinned := Ladder(n).pinned;
      assert ImagesPinned(step, ["runs", "steps", "[]"], pinned);
      assert ["runs", "steps"] + ["[]"] == ["runs", "steps", "[]"];
      assert ImagesPinned(Sequence([step]), ["runs", "steps"], pinned);
      assert ["runs"] + ["steps"] == ["runs", "steps"];
      assert ImagesPinned(Mapping([Pair("steps", Sequence([step]))]), ["runs"], pinned);
      assert [] + ["runs"] == ["runs"];
    }
  }

  /** Along any path the names grow by one letter an action. */
  lemma {:induction false} PathRises(n: nat, path: seq<string>)
    requires Ladder(n).IsPath(path) && IsRung(path[0], n)
    ensures forall i | 0 <= i < |path| :: IsRung(path[i], n) && |path[i]| == |path[0]| + i
    decreases |path|
  {
    if |path| > 1 {
      var front := path[..|path| - 1];
      assert Ladder(n).IsPath(front) by {
        forall i | 0 <= i < |front| - 1 ensures front[i + 1] in Ladder(n).Next(front[i]) {
          assert path[i + 1] in Ladder(n).Next(path[i]);
        }
      }
      PathRises(n, front);
      var last := |path| - 1;
      assert front[last - 1] == path[last - 1];
      assert path[last - 1 + 1] in Ladder(n).Next(path[last - 1]);
      NextRung(n, path[last - 1], path[last]);
    }
  }

  lemma RootsAreRungs(n: nat, name: string)
    ensures name in RootUses([TopDown(n)]) <==> IsRung(name, n)
  {
    TopDownUses(n);
    if IsRung(name, n) {
      RungIsName(name, n);
      assert Down(n, n)[n - |name|] == name;
    }
  }

  lemma ReachableIsRung(n: nat, name: string)
    ensures Ladder(n).Reachable(RootUses([TopDown(n)]), name) ==> IsRung(name, n)
  {
    hide Ladder, RootUses;
    if Ladder(n).Reachable(RootUses([TopDown(n)]), name) {
      var path :| Ladder(n).IsPath(path) && path[0] in RootUses([TopDown(n)]) && path[|path| - 1] == name;
      RootsAreRungs(n, path[0]);
      PathRises(n, path);
    }
  }

  // ----- no failure is justified

  lemma NoCycle(n: nat, name: string)
    requires IsRung(name, n)
    ensures !Ladder(n).OnCycle(name)
  {
    hide Ladder;
    forall path | |path| > 1 && Ladder(n).IsPath(path) && path[0] == name ensures path[|path| - 1] != name {
      PathRises(n, path);
    }
  }

  lemma NothingTooDeep(n: nat, order: seq<string>, path: seq<string>, k: nat)
    requires path != [] && path[0] in RootUses([TopDown(n)])
    ensures !TooDeep(Ladder(n), RootList([TopDown(n)]), order, path, k)
  {
    hide Ladder, RootUses, RootList, Down, TopDown;
    TopDownUses(n);
    RootsAreRungs(n, path[0]);
    if Ladder(n).IsPath(path) && |path| > MAXIMUM_DEPTH && k < n && Name(n - k) == path[0] {
      PathRises(n, path);
      RungIsName(path[1], n);
      assert path[1] == Name(n - (k - 1)) && Down(n, n)[k - 1] == path[1];
    }
  }

  lemma FirstIsMember(names: seq<string>)
    ensures |names| > 0 ==> names[0] in names
  {
  }

  lemma FewRungs(n: nat, names: seq<string>)
    requires NoDuplicates(names) && forall name | name in names :: IsRung(name, n)
    ensures |names| <= n
    decreases n
  {
    if n == 0 {
      FirstIsMember(names);
    } else if exists i :: 0 <= i < |names| && |names[i]| == n {
      var i :| 0 <= i < |names| && |names[i]| == n;
      var rest := names[..i] + names[i + 1..];
      forall name | name in rest ensures IsRung(name, n - 1) {
        var j :| 0 <= j < |names| && j != i && names[j] == name;
        RungIsName(name, n);
        RungIsName(names[i], n);
      }
      FewRungs(n - 1, rest);
    } else {
      FewRungs(n - 1, names);
    }
  }

  lemma {:induction false} RungsAreEmpty(n: nat, names: seq<string>)
    ensures Ladder(n).TotalSize(names) == 0
    decreases |names|
  {
    if names != [] {
      RungsAreEmpty(n, names[..|names| - 1]);
    }
  }

  lemma NoFailureJustified(n: nat, order: seq<string>, failure: Failure)
    requires n < MAXIMUM_FILES
    ensures !JustifiedBy(Ladder(n), [TopDown(n)], order, failure)
  {
    hide Ladder, TopDown, RootUses, TooDeep;
    var roots := RootUses([TopDown(n)]);
    forall name
      ensures Ladder(n).Reachable(roots, name) ==> IsRung(name, n) && !Ladder(n).OnCycle(name) && Ladder(n).Passes(name)
    {
      ReachableIsRung(n, name);
      if IsRung(name, n) {
        NoCycle(n, name);
        RungPasses(n, name);
      }
    }
    forall path, k: nat | path != [] && path[0] in roots
      ensures !TooDeep(Ladder(n), RootList([TopDown(n)]), order, path, k)
    {
      NothingTooDeep(n, order, path, k);
    }
    forall names | Ladder(n).Used(roots, names) ensures |names| <= n && Ladder(n).TotalSize(names) == 0 {
      FewRungs(n, names);
      RungsAreEmpty(n, names);
    }
    TopDownIsClean(n);
  }

  lemma TopDownIsClean(n: nat)
    ensures WorkflowBytes([TopDown(n)]) == 0 && Clean(TopDown(n))
  {
    assert [TopDown(n)][..0] == [];
    assert WorkflowBytes([TopDown(n)]) == WorkflowBytes([]) + Bytes(TopDown(n));
  }

  function Up(n: nat): (names: seq<string>)
    ensures |names| == n && forall k | 0 <= k < n :: names[k] == Name(k + 1)
  {
    seq(n, (k: int) requires 0 <= k < n => Name(k + 1))
  }

  /** The whole ladder is a chain of `n` actions from a root. */
  lemma UpIsPath(n: nat)
    requires n > 0
    ensures Ladder(n).IsPath(Up(n)) && Up(n)[0] in RootUses([TopDown(n)])
  {
    hide Ladder, RootUses;
    forall i | 0 <= i < n - 1 ensures Up(n)[i + 1] in Ladder(n).Next(Up(n)[i]) {
      NextRung(n, Up(n)[i], Up(n)[i + 1]);
    }
    RootsAreRungs(n, Up(n)[0]);
  }

  /** Past the limit, and for every length that the budget of files allows, a chain
      of that length is accepted. */
  method LongChainIsAccepted(n: nat) returns (failure: Option<Failure>)
    requires MAXIMUM_DEPTH < n < MAXIMUM_FILES
    ensures failure.None?
    ensures Ladder(n).IsPath(Up(n)) && Up(n)[0] in RootUses([TopDown(n)]) && |Up(n)| == n
  {
    var inspection := new LocalActionInspection(Ladder(n), [TopDown(n)]);
    failure := inspection.CheckWorkflows([TopDown(n)]);
    if failure.Some? {
      NoFailureJustified(n, inspection.order, failure.value);
    }
    UpIsPath(n);
  }
}
