/** Which modules a set of committed changes affects (internal/gates/affected.go). */
module Affected {
  import opened Wrappers

  const MAXIMUM_MODULES := 64

  /** One module of the inventory: its packages are given by their directories. */
  datatype Module = Module(directory: string, modulePath: string, fixture: bool, packages: seq<string>,
                           ownedDependencies: seq<string>)

  /** A decoded go.mod: its module path, the paths it requires, and the
      directories, relative to the repository, of its local replacements. */
  datatype Manifest = Manifest(modulePath: string, requirements: seq<string>, replacements: seq<string>)

  datatype Refusal = InvalidCardinality | UnreadableDependencies | ForeignModule

  // ----- ownership

  predicate Contains(directory: string, name: string) {
    directory != "." && directory + "/" <= name
  }

  predicate TopLevelSource(name: string) {
    '/' !in name && |name| >= 3 && name[|name| - 3..] == ".go"
  }

  /** The root module owns its top-level sources and what lies in its packages. */
  ghost predicate RootOwns(catalog: seq<Module>, name: string) {
    exists m :: m in catalog && m.directory == "." &&
      (TopLevelSource(name) || exists p :: p in m.packages && Contains(p, name))
  }

  ghost predicate Deepest(catalog: seq<Module>, name: string, owner: string) {
    && owner != "" && (exists m :: m in catalog && m.directory == owner && Contains(owner, name))
    && forall m | m in catalog && Contains(m.directory, name) :: |m.directory| <= |owner|
  }

  /** Some module other than the root contains the file. */
  ghost predicate Contained(catalog: seq<Module>, name: string) {
    exists m :: m in catalog && m.directory != "" && Contains(m.directory, name)
  }

  ghost predicate IsOwner(catalog: seq<Module>, name: string, owner: string) {
    if Contained(catalog, name) then Deepest(catalog, name, owner) else owner == "." && RootOwns(catalog, name)
  }

  /** Directories containing one file are nested in one another, so the owner is
      unique and lies below every other one. */
  lemma OwnerIsInnermost(catalog: seq<Module>, name: string, owner: string)
    requires Deepest(catalog, name, owner)
    ensures forall m | m in catalog && Contains(m.directory, name) ::
      m.directory == owner || Contains(m.directory, owner)
    ensures forall other | IsOwner(catalog, name, other) :: other == owner
  {
    forall m | m in catalog && Contains(m.directory, name)
      ensures m.directory == owner || Contains(m.directory, owner)
    {
      assert m.directory == name[..|m.directory|] && owner == name[..|owner|];
      if |m.directory| < |owner| {
        assert (m.directory + "/")[..] == name[..|m.directory| + 1];
        assert owner[..|m.directory| + 1] == name[..|m.directory| + 1];
      }
    }
    assert Contained(catalog, name);
    forall other | IsOwner(catalog, name, other) ensures other == owner {
      assert other == name[..|other|] && owner == name[..|owner|];
    }
  }

  method FindOwner(catalog: seq<Module>, name: string) returns (owner: string)
    ensures owner == "" <==> forall d :: !IsOwner(catalog, name, d)
    ensures owner != "" ==> IsOwner(catalog, name, owner)
  {
    owner := "";
    for i := 0 to |catalog|
      invariant owner == "" ==> !Contained(catalog[..i], name)
      invariant owner != "" ==> Deepest(catalog[..i], name, owner)
    {
      var m := catalog[i];
      assert catalog[..i + 1] == catalog[..i] + [m];
      if Contains(m.directory, name) && |m.directory| > |owner| {
        owner := m.directory;
        assert m in catalog[..i + 1];
      } else if owner != "" {
        var before :| before in catalog[..i] && before.directory == owner && Contains(owner, name);
        assert before in catalog[..i + 1];
      }
    }
    assert catalog[..|catalog|] == catalog;
    if owner == "" {
      var owns := RootCheck(catalog, name);
      if owns {
        owner := ".";
      }
    } else {
      assert Contained(catalog, name);
    }
    assert owner != "" ==> IsOwner(catalog, name, owner);
  }

  method RootCheck(catalog: seq<Module>, name: string) returns (owns: bool)
    ensures owns == RootOwns(catalog, name)
  {
    owns := false;
    for i := 0 to |catalog|
      invariant owns == RootOwns(catalog[..i], name)
    {
      var m := catalog[i];
      assert catalog[..i + 1] == catalog[..i] + [m];
      if m.directory != "." {
        continue;
      }
      var inside := TopLevelSource(name);
      for j := 0 to |m.packages|
        invariant inside == (TopLevelSource(name) || exists p :: p in m.packages[..j] && Contains(p, name))
      {
        assert m.packages[..j + 1] == m.packages[..j] + [m.packages[j]];
        if Contains(m.packages[j], name) {
          inside := true;
        }
      }
      assert m.packages[..|m.packages|] == m.packages;
      owns := owns || inside;
    }
    assert catalog[..|catalog|] == catalog;
  }

  // ----- widening

  ghost predicate FixtureAt(catalog: seq<Module>, directory: string) {
    exists m :: m in catalog && m.directory == directory && m.fixture
  }

  /** The file has an owner, and it is not a fixture. */
  ghost predicate Narrow(catalog: seq<Module>, name: string) {
    exists d :: IsOwner(catalog, name, d) && !FixtureAt(catalog, d)
  }

  ghost predicate Widened(catalog: seq<Module>, changes: seq<string>) {
    changes == [] || exists name :: name in changes && !Narrow(catalog, name)
  }

  ghost predicate Owns(catalog: seq<Module>, changes: seq<string>, directory: string) {
    exists name :: name in changes && IsOwner(catalog, name, directory)
  }

  lemma OwnerUnique(catalog: seq<Module>, name: string, a: string, b: string)
    requires IsOwner(catalog, name, a) && IsOwner(catalog, name, b)
    ensures a == b
  {
    if Contained(catalog, name) {
      OwnerIsInnermost(catalog, name, a);
    }
  }

  method SelectOwners(catalog: seq<Module>, changes: seq<string>) returns (selected: set<string>, all: bool)
    ensures all == Widened(catalog, changes)
    ensures !all ==> forall d :: d in selected <==> Owns(catalog, changes, d)
  {
    hide IsOwner;
    selected := {};
    all := changes == [];
    for i := 0 to |changes|
      invariant all ==> Widened(catalog, changes)
      invariant !all ==> changes != []
      invariant !all ==> forall k | 0 <= k < i :: Narrow(catalog, changes[k])
      invariant !all ==> forall d :: d in selected <==> Owns(catalog, changes[..i], d)
    {
      if all {
        break;
      }
      assert changes[..i + 1] == changes[..i] + [changes[i]];
      var owner := FindOwner(catalog, changes[i]);
      if owner == "" || exists m :: m in catalog && m.directory == owner && m.fixture {
        if owner != "" {
          forall d | IsOwner(catalog, changes[i], d) ensures d == owner {
            OwnerUnique(catalog, changes[i], d, owner);
          }
        }
        assert !Narrow(catalog, changes[i]);
        all := true;
      } else {
        assert Narrow(catalog, changes[i]);
        forall d | IsOwner(catalog, changes[i], d) ensures d == owner {
          OwnerUnique(catalog, changes[i], d, owner);
        }
        selected := selected + {owner};
      }
    }
    assert changes[..|changes|] == changes;
  }

  // ----- dependencies

  /** The module's go.mod is readable and names the module. */
  predicate Readable(m: Module, manifests: string -> Option<Manifest>) {
    manifests(m.directory).Some? && manifests(m.directory).value.modulePath == m.modulePath
  }

  /** `m` depends on the module path `q`: declared in the inventory, required by
      its go.mod, or the path of a module it replaces locally. */
  ghost predicate Declares(catalog: seq<Module>, m: Module, q: string, manifests: string -> Option<Manifest>)
    requires Readable(m, manifests)
  {
    var manifest := manifests(m.directory).value;
    || q in m.ownedDependencies
    || q in manifest.requirements
    || exists o :: o in catalog && o.directory in manifest.replacements && o.modulePath == q
  }

  ghost predicate DistinctDirectories(catalog: seq<Module>) {
    forall i, j | 0 <= i < j < |catalog| :: catalog[i].directory != catalog[j].directory
  }

  /** A map read as Go reads it: an absent directory has no dependencies. */
  function Under(dependencies: map<string, seq<string>>, directory: string): seq<string> {
    if directory in dependencies then dependencies[directory] else []
  }

  /** What was collected for a module is what it depends on. */
  ghost predicate Recorded(catalog: seq<Module>, m: Module, dependencies: map<string, seq<string>>,
                           manifests: string -> Option<Manifest>)
    requires Readable(m, manifests)
  {
    m.directory in dependencies && forall q :: q in dependencies[m.directory] <==> Declares(catalog, m, q, manifests)
  }

  ghost predicate Records(catalog: seq<Module>, dependencies: map<string, seq<string>>,
                          manifests: string -> Option<Manifest>)
    requires forall m | m in catalog :: Readable(m, manifests)
  {
    forall m | m in catalog :: Recorded(catalog, m, dependencies, manifests)
  }

  method ReadOne(catalog: seq<Module>, m: Module, manifests: string -> Option<Manifest>)
    returns (dependencies: seq<string>)
    requires Readable(m, manifests)
    ensures forall q :: q in dependencies <==> Declares(catalog, m, q, manifests)
  {
    var manifest := manifests(m.directory).value;
    dependencies := m.ownedDependencies + manifest.requirements;
    for i := 0 to |manifest.replacements|
      invariant forall q :: q in dependencies <==>
        (q in m.ownedDependencies || q in manifest.requirements
         || exists o :: o in catalog && o.directory in manifest.replacements[..i] && o.modulePath == q)
    {
      var target := manifest.replacements[i];
      assert manifest.replacements[..i + 1] == manifest.replacements[..i] + [target];
      ghost var before := dependencies;
      for j := 0 to |catalog|
        invariant forall q :: q in dependencies <==>
          (q in before || exists o :: o in catalog[..j] && o.directory == target && o.modulePath == q)
      {
        assert catalog[..j + 1] == catalog[..j] + [catalog[j]];
        if target == catalog[j].directory {
          dependencies := dependencies + [catalog[j].modulePath];
        }
      }
      assert catalog[..|catalog|] == catalog;
    }
    assert manifest.replacements[..|manifest.replacements|] == manifest.replacements;
  }

  /** The refusal is about the first module whose go.mod is not its own. */
  ghost predicate FirstUnreadable(catalog: seq<Module>, manifests: string -> Option<Manifest>, e: Refusal) {
    exists i: nat | i < |catalog| ::
      && (forall m | m in catalog[..i] :: Readable(m, manifests))
      && !Readable(catalog[i], manifests)
      && e == if manifests(catalog[i].directory).None? then UnreadableDependencies else ForeignModule
  }

  method ReadDependencies(catalog: seq<Module>, manifests: string -> Option<Manifest>)
    returns (r: Result<map<string, seq<string>>, Refusal>)
    requires DistinctDirectories(catalog)
    ensures r.Ok? <==> forall m | m in catalog :: Readable(m, manifests)
    ensures r.Ok? ==> Records(catalog, r.value, manifests)
    ensures r.Err? ==> FirstUnreadable(catalog, manifests, r.error)
  {
    hide Declares;
    var dependencies: map<string, seq<string>> := map[];
    for i := 0 to |catalog|
      invariant forall k | 0 <= k < i :: Readable(catalog[k], manifests)
      invariant forall k | 0 <= k < i :: Recorded(catalog, catalog[k], dependencies, manifests)
    {
      var m := catalog[i];
      assert m in catalog;
      if manifests(m.directory).None? {
        return Err(UnreadableDependencies);
      }
      if manifests(m.directory).value.modulePath != m.modulePath {
        return Err(ForeignModule);
      }
      var own := ReadOne(catalog, m, manifests);
      dependencies := dependencies[m.directory := own];
    }
    r := Ok(dependencies);
  }

  // ----- the closure

  /** The module in directory `a` depends directly on the one in directory `b`. */
  ghost predicate Edge(catalog: seq<Module>, manifests: string -> Option<Manifest>, a: string, b: string)
    requires forall m | m in catalog :: Readable(m, manifests)
  {
    exists m, n ::
      && m in catalog && n in catalog && m.directory == a && n.directory == b
      && Declares(catalog, m, n.modulePath, manifests)
  }

  /** A chain of direct dependencies from one directory down to an owner of a change. */
  ghost predicate Chain(catalog: seq<Module>, manifests: string -> Option<Manifest>, changes: seq<string>,
                        path: seq<string>)
    requires forall m | m in catalog :: Readable(m, manifests)
  {
    && path != [] && Owns(catalog, changes, path[|path| - 1])
    && forall i | 0 <= i < |path| - 1 :: Edge(catalog, manifests, path[i], path[i + 1])
  }

  ghost predicate Reaches(catalog: seq<Module>, manifests: string -> Option<Manifest>, changes: seq<string>,
                          directory: string)
    requires forall m | m in catalog :: Readable(m, manifests)
  {
    exists path :: path != [] && Chain(catalog, manifests, changes, path) && path[0] == directory
  }

  lemma ReachesMore(catalog: seq<Module>, manifests: string -> Option<Manifest>, changes: seq<string>, a: string,
                    b: string)
    requires forall m | m in catalog :: Readable(m, manifests)
    requires Edge(catalog, manifests, a, b) && Reaches(catalog, manifests, changes, b)
    ensures Reaches(catalog, manifests, changes, a)
  {
    hide Edge, Owns;
    var path :| path != [] && Chain(catalog, manifests, changes, path) && path[0] == b;
    assert Chain(catalog, manifests, changes, [a] + path) by {
      forall i | 0 <= i < |path| ensures Edge(catalog, manifests, ([a] + path)[i], ([a] + path)[i + 1]) {
        assert i > 0 ==> ([a] + path)[i] == path[i - 1];
      }
    }
    assert ([a] + path)[0] == a;
  }

  /** A set of directories that holds the owners and everything with an edge into it. */
  ghost predicate Closed(catalog: seq<Module>, manifests: string -> Option<Manifest>, changes: seq<string>,
                         selected: set<string>)
    requires forall m | m in catalog :: Readable(m, manifests)
  {
    && (forall d | Owns(catalog, changes, d) :: d in selected)
    && forall a, b | b in selected && Edge(catalog, manifests, a, b) :: a in selected
  }

  lemma {:induction false} ClosedHoldsChains(catalog: seq<Module>, manifests: string -> Option<Manifest>,
                                             changes: seq<string>, selected: set<string>, path: seq<string>)
    requires forall m | m in catalog :: Readable(m, manifests)
    requires Closed(catalog, manifests, changes, selected) && Chain(catalog, manifests, changes, path)
    ensures path[0] in selected
    decreases |path|
  {
    hide Edge, Owns;
    if |path| > 1 {
      var rest := path[1..];
      assert Chain(catalog, manifests, changes, rest) by {
        forall i | 0 <= i < |rest| - 1 ensures Edge(catalog, manifests, rest[i], rest[i + 1]) {
          assert rest[i] == path[i + 1] && rest[i + 1] == path[i + 2];
        }
      }
      ClosedHoldsChains(catalog, manifests, changes, selected, rest);
      assert Edge(catalog, manifests, path[0], path[1]);
    }
  }

  /** Repeat until no module is added: the selection becomes exactly what reaches an owner. */
  method Close(catalog: seq<Module>, dependencies: map<string, seq<string>>, owners: set<string>,
      ghost manifests: string -> Option<Manifest>, ghost changes: seq<string>) returns (selected: set<string>)
    requires forall m | m in catalog :: Readable(m, manifests)
    requires Records(catalog, dependencies, manifests)
    requires forall d :: d in owners <==> Owns(catalog, changes, d)
    ensures forall d :: d in selected <==> Reaches(catalog, manifests, changes, d)
  {
    hide Declares, Owns, Reaches, Records, Settled;
    selected := owners;
    OwnersReach(catalog, manifests, changes);
    var added := true;
    while added
      invariant owners <= selected
      invariant forall d | d in selected :: Reaches(catalog, manifests, changes, d)
      invariant !added ==> Settled(catalog, dependencies, selected)
      decreases Unselected(catalog, selected), added
    {
      selected, added := Pass(catalog, dependencies, selected, manifests, changes);
    }
    SettledIsClosed(catalog, dependencies, owners, selected, manifests, changes);
    ClosedIsReach(catalog, manifests, changes, selected);
  }

  lemma OwnersReach(catalog: seq<Module>, manifests: string -> Option<Manifest>, changes: seq<string>)
    requires forall m | m in catalog :: Readable(m, manifests)
    ensures forall d | Owns(catalog, changes, d) :: Reaches(catalog, manifests, changes, d)
  {
    forall d | Owns(catalog, changes, d) ensures Reaches(catalog, manifests, changes, d) {
      assert Chain(catalog, manifests, changes, [d]);
    }
  }

  lemma ClosedIsReach(catalog: seq<Module>, manifests: string -> Option<Manifest>, changes: seq<string>,
                      selected: set<string>)
    requires forall m | m in catalog :: Readable(m, manifests)
    requires forall d | d in selected :: Reaches(catalog, manifests, changes, d)
    requires Closed(catalog, manifests, changes, selected)
    ensures forall d :: d in selected <==> Reaches(catalog, manifests, changes, d)
  {
    hide Chain, Closed;
    forall d | Reaches(catalog, manifests, changes, d) ensures d in selected {
      var path :| path != [] && Chain(catalog, manifests, changes, path) && path[0] == d;
      ClosedHoldsChains(catalog, manifests, changes, selected, path);
    }
  }

  /** One pass over the catalog. */
  method Pass(catalog: seq<Module>, dependencies: map<string, seq<string>>, before: set<string>,
              ghost manifests: string -> Option<Manifest>, ghost changes: seq<string>)
    returns (selected: set<string>, added: bool)
    requires forall m | m in catalog :: Readable(m, manifests)
    requires Records(catalog, dependencies, manifests)
    requires forall d | d in before :: Reaches(catalog, manifests, changes, d)
    ensures before <= selected
    ensures forall d | d in selected :: Reaches(catalog, manifests, changes, d)
    ensures if added then Unselected(catalog, selected) < Unselected(catalog, before)
      else selected == before && Settled(catalog, dependencies, selected)
  {
    hide Declares, Reaches, Unselected;
    selected, added := before, false;
    for i := 0 to |catalog|
      invariant before <= selected
      invariant forall d | d in selected :: Reaches(catalog, manifests, changes, d)
      invariant !added ==> selected == before
      invariant added ==> exists m :: m in catalog && m.directory in selected && m.directory !in before
      invariant !added ==>
        forall k, n | 0 <= k < i && n in catalog && catalog[k].directory !in selected && n.directory in selected ::
        n.modulePath !in Under(dependencies, catalog[k].directory)
    {
      var m := catalog[i];
      if m.directory in selected {
        continue;
      }
      for j := 0 to |catalog|
        invariant forall k | 0 <= k < j ::
          !(catalog[k].directory in selected && catalog[k].modulePath in Under(dependencies, m.directory))
      {
        var n := catalog[j];
        if n.directory in selected && n.modulePath in Under(dependencies, m.directory) {
          assert Recorded(catalog, m, dependencies, manifests) && n in catalog;
          assert Declares(catalog, m, n.modulePath, manifests);
          assert Edge(catalog, manifests, m.directory, n.directory);
          ReachesMore(catalog, manifests, changes, m.directory, n.directory);
          selected, added := selected + {m.directory}, true;
          break;
        }
      }
    }
    if added {
      FewerUnselected(catalog, before, selected);
    }
  }

  /** How many directories are still to be selected: what the outer loop counts down. */
  ghost function Unselected(catalog: seq<Module>, selected: set<string>): nat {
    |set m | m in catalog && m.directory !in selected :: m.directory|
  }

  lemma FewerUnselected(catalog: seq<Module>, before: set<string>, selected: set<string>)
    requires before <= selected
    requires exists m :: m in catalog && m.directory in selected && m.directory !in before
    ensures Unselected(catalog, selected) < Unselected(catalog, before)
  {
    var m :| m in catalog && m.directory in selected && m.directory !in before;
    var a := set m | m in catalog && m.directory !in selected :: m.directory;
    var b := set m | m in catalog && m.directory !in before :: m.directory;
    assert a <= b && m.directory in b && m.directory !in a;
    assert b == a + (b - a) && m.directory in b - a;
  }

  /** No unselected module depends on a selected one. */
  ghost predicate Settled(catalog: seq<Module>, dependencies: map<string, seq<string>>, selected: set<string>) {
    forall m, n | m in catalog && n in catalog && m.directory !in selected && n.directory in selected ::
      n.modulePath !in Under(dependencies, m.directory)
  }

  lemma SettledIsClosed(catalog: seq<Module>, dependencies: map<string, seq<string>>, owners: set<string>,
                        selected: set<string>, manifests: string -> Option<Manifest>, changes: seq<string>)
    requires forall m | m in catalog :: Readable(m, manifests)
    requires Records(catalog, dependencies, manifests)
    requires forall d :: d in owners <==> Owns(catalog, changes, d)
    requires owners <= selected && Settled(catalog, dependencies, selected)
    ensures Closed(catalog, manifests, changes, selected)
  {
    hide Declares, Owns;
    forall a, b | b in selected && Edge(catalog, manifests, a, b) ensures a in selected {
      var m, n :| m in catalog && n in catalog && m.directory == a && n.directory == b
        && Declares(catalog, m, n.modulePath, manifests);
      assert Recorded(catalog, m, dependencies, manifests);
    }
  }

  // ----- the answer

  ghost function Chosen(catalog: seq<Module>, keep: set<string>): seq<Module> {
    if catalog == [] then []
    else
      var last := catalog[|catalog| - 1];
      Chosen(catalog[..|catalog| - 1], keep) + if last.directory in keep then [last] else []
  }

  ghost function Directories(catalog: seq<Module>): set<string> {
    set m | m in catalog :: m.directory
  }

  /** The directories with a chain of dependencies down to a changed module. */
  ghost function Reaching(catalog: seq<Module>, manifests: string -> Option<Manifest>,
                          changes: seq<string>): set<string>
    requires forall m | m in catalog :: Readable(m, manifests)
  {
    set d | d in Directories(catalog) && Reaches(catalog, manifests, changes, d)
  }

  /** Every module when the change cannot be narrowed, otherwise those that reach an owner, in catalog order. */
  ghost function Answer(catalog: seq<Module>, manifests: string -> Option<Manifest>, changes: seq<string>): seq<Module>
    requires Widened(catalog, changes) || forall m | m in catalog :: Readable(m, manifests)
  {
    if Widened(catalog, changes) then catalog else Chosen(catalog, Reaching(catalog, manifests, changes))
  }

  method ChangedModules(catalog: seq<Module>, changes: seq<string>, manifests: string -> Option<Manifest>)
    returns (r: Result<seq<Module>, Refusal>)
    requires DistinctDirectories(catalog)
    ensures r.Ok? <==>
      && 0 < |catalog| <= 64
      && (Widened(catalog, changes) || forall m | m in catalog :: Readable(m, manifests))
    ensures r.Ok? ==> r.value == Answer(catalog, manifests, changes)
    ensures r.Err? ==>
      if 0 < |catalog| <= 64 then FirstUnreadable(catalog, manifests, r.error)
      else r.error == InvalidCardinality
  {
    hide Widened, Reaches, Owns, Records, DistinctDirectories;
    if |catalog| == 0 || |catalog| > MAXIMUM_MODULES {
      return Err(InvalidCardinality);
    }
    var owners, all := SelectOwners(catalog, changes);
    if all {
      return Ok(catalog);
    }
    var read := ReadDependencies(catalog, manifests);
    if read.Err? {
      return Err(read.error);
    }
    var selected := Close(catalog, read.value, owners, manifests, changes);
    var modules: seq<Module> := [];
    for i := 0 to |catalog|
      invariant modules == Chosen(catalog[..i], Reaching(catalog, manifests, changes))
    {
      assert catalog[..i + 1][..i] == catalog[..i];
      assert catalog[i] in catalog;
      if catalog[i].directory in selected {
        modules := modules + [catalog[i]];
      }
    }
    assert catalog[..|catalog|] == catalog;
    r := Ok(modules);
  }

  lemma {:induction false} ChosenMembers(catalog: seq<Module>, keep: set<string>)
    ensures forall m :: m in Chosen(catalog, keep) <==> m in catalog && m.directory in keep
  {
    if catalog != [] {
      ChosenMembers(catalog[..|catalog| - 1], keep);
      assert catalog == catalog[..|catalog| - 1] + [catalog[|catalog| - 1]];
    }
  }

  /** For a nonempty diff, changing more files never drops a module. */
  lemma MoreChangesMoreModules(catalog: seq<Module>, manifests: string -> Option<Manifest>, some: seq<string>,
                               more: seq<string>)
    requires forall m | m in catalog :: Readable(m, manifests)
    requires some != [] && forall name | name in some :: name in more
    ensures forall m | m in Answer(catalog, manifests, some) :: m in Answer(catalog, manifests, more)
  {
    hide IsOwner, Edge, Chain, Owns;
    assert some[0] in more;
    if Widened(catalog, some) {
      assert Widened(catalog, more);
    } else {
      ChosenMembers(catalog, Reaching(catalog, manifests, some));
      if !Widened(catalog, more) {
        ChosenMembers(catalog, Reaching(catalog, manifests, more));
        forall d | Reaches(catalog, manifests, some, d) ensures Reaches(catalog, manifests, more, d) {
          ChainOfMore(catalog, manifests, some, more, d);
        }
      }
    }
  }

  lemma ChainOfMore(catalog: seq<Module>, manifests: string -> Option<Manifest>, some: seq<string>, more: seq<string>,
                    d: string)
    requires forall m | m in catalog :: Readable(m, manifests)
    requires forall name | name in some :: name in more
    requires Reaches(catalog, manifests, some, d)
    ensures Reaches(catalog, manifests, more, d)
  {
    hide IsOwner, Edge;
    var path :| path != [] && Chain(catalog, manifests, some, path) && path[0] == d;
    assert Chain(catalog, manifests, more, path);
  }

  /** For any two change lists, the second with all changes of the first: nothing
      is dropped if and only if the first is not empty, or the second widens the
      selection, or every module reaches an owner of one of its changes. */
  lemma MonotoneExactly(catalog: seq<Module>, manifests: string -> Option<Manifest>, some: seq<string>,
                        more: seq<string>)
    requires forall m | m in catalog :: Readable(m, manifests)
    requires forall name | name in some :: name in more
    ensures (forall m | m in Answer(catalog, manifests, some) :: m in Answer(catalog, manifests, more))
      <==> some != [] || Widened(catalog, more) || forall m | m in catalog ::
        Reaches(catalog, manifests, more, m.directory)
  {
    hide Reaches;
    if some != [] {
      MoreChangesMoreModules(catalog, manifests, some, more);
    } else if !Widened(catalog, more) {
      ChosenMembers(catalog, Reaching(catalog, manifests, more));
      assert Answer(catalog, manifests, some) == catalog;
    }
  }

  /** Two modules, neither of which depends on the other. */
  function TwoModules(): seq<Module> {
    [Module("a", "example.org/a", false, [], []), Module("b", "example.org/b", false, [], [])]
  }

  function NoRequirements(directory: string): Option<Manifest> {
    Some(Manifest("example.org/" + directory, [], []))
  }

  /** An empty diff selects both modules, and one change only one of them. */
  lemma OneChangeSelectsLess()
    ensures forall m | m in TwoModules() :: Readable(m, NoRequirements)
    ensures Answer(TwoModules(), NoRequirements, []) == TwoModules()
    ensures Answer(TwoModules(), NoRequirements, ["a/x.go"]) == [TwoModules()[0]]
  {
    hide Chain, Edge, Declares, IsOwner, Reaches, Chosen;
    var catalog, changes := TwoModules(), ["a/x.go"];
    assert "example.org/" + "a" == "example.org/a" && "example.org/" + "b" == "example.org/b";
    OnlyFirstOwns(catalog, "a/x.go");
    assert changes[0] == "a/x.go";
    assert Owns(catalog, changes, "a");
    assert !Widened(catalog, changes);
    OwnersReach(catalog, NoRequirements, changes);
    SecondReachesNothing(catalog, changes);
    assert "a" in Reaching(catalog, NoRequirements, changes) by {
      assert catalog[0] in catalog && catalog[0].directory == "a";
    }
    ChooseFirst(catalog, Reaching(catalog, NoRequirements, changes));
  }

  lemma ChooseFirst(catalog: seq<Module>, keep: set<string>)
    requires catalog == TwoModules() && "a" in keep && "b" !in keep
    ensures Chosen(catalog, keep) == [catalog[0]]
  {
    assert catalog[0].directory == "a" && catalog[1].directory == "b";
    assert catalog[..1][..0] == [] && catalog[..1] == [catalog[0]];
    assert Chosen(catalog[..1], keep) == [catalog[0]];
  }

  lemma OnlyFirstOwns(catalog: seq<Module>, name: string)
    requires catalog == TwoModules() && name == "a/x.go"
    ensures forall d :: IsOwner(catalog, name, d) <==> d == "a"
    ensures Narrow(catalog, name)
  {
    var a, b := catalog[0], catalog[1];
    assert a in catalog;
    assert "a" + "/" <= name;
    assert name[0] == 'a' && ("b" + "/")[0] == 'b';
    assert Contains("a", name) && !Contains("b", name);
    assert Contained(catalog, name) && Deepest(catalog, name, "a");
    forall d | IsOwner(catalog, name, d) ensures d == "a" {
      OwnerIsInnermost(catalog, name, "a");
    }
    assert !FixtureAt(catalog, "a");
  }

  lemma SecondReachesNothing(catalog: seq<Module>, changes: seq<string>)
    requires catalog == TwoModules() && changes == ["a/x.go"]
    requires forall m | m in catalog :: Readable(m, NoRequirements)
    requires forall d :: IsOwner(catalog, "a/x.go", d) <==> d == "a"
    ensures !Reaches(catalog, NoRequirements, changes, "b")
  {
    forall m, q | m in catalog ensures !Declares(catalog, m, q, NoRequirements) {
    }
    hide Declares, IsOwner;
    assert Closed(catalog, NoRequirements, changes, {"a"});
    forall path | path != [] && Chain(catalog, NoRequirements, changes, path) ensures path[0] != "b" {
      ClosedHoldsChains(catalog, NoRequirements, changes, {"a"}, path);
    }
  }

  /** What was selected is closed under being depended on, and holds every owner. */
  lemma ConsumersAreSelected(catalog: seq<Module>, manifests: string -> Option<Manifest>, changes: seq<string>,
                             m: Module, n: Module)
    requires forall k | k in catalog :: Readable(k, manifests)
    requires m in catalog && n in Answer(catalog, manifests, changes)
    requires Declares(catalog, m, n.modulePath, manifests)
    ensures m in Answer(catalog, manifests, changes)
  {
    hide Reaches, Declares, Owns;
    if !Widened(catalog, changes) {
      ChosenMembers(catalog, Reaching(catalog, manifests, changes));
      assert Edge(catalog, manifests, m.directory, n.directory);
      ReachesMore(catalog, manifests, changes, m.directory, n.directory);
    }
  }
}
