/** What affects a module, said of files, modules and manifests alone. */
module AffectedMeaning {
  import opened Wrappers
  import opened Affected

  /** The file lies somewhere below the directory; below "." nothing counts as lying. */
  ghost predicate Lies(directory: string, name: string) {
    directory != "." && exists rest :: name == directory + "/" + rest
  }

  /** The module owns the file: it is the deepest of those in whose directory the
      file lies; a file that lies in none is the root's, if it is a Go file of the
      top level or lies in one of the root's packages. */
  ghost predicate Belongs(catalog: seq<Module>, name: string, m: Module) {
    && m in catalog
    && if exists n | n in catalog :: n.directory != "" && Lies(n.directory, name) then
         m.directory != "" && Lies(m.directory, name)
         && forall n | n in catalog && Lies(n.directory, name) :: |n.directory| <= |m.directory|
       else
         m.directory == "."
         && ((exists stem :: name == stem + ".go" && '/' !in stem)
             || exists package | package in m.packages :: Lies(package, name))
  }

  /** One module asks for the other: in the inventory, in its go.mod, or by a local
      replacement whose directory is that of a module with the same path. */
  ghost predicate AsksFor(catalog: seq<Module>, manifests: string -> Option<Manifest>, m: Module, n: Module) {
    exists manifest | manifests(m.directory) == Some(manifest) ::
      || n.modulePath in m.ownedDependencies + manifest.requirements
      || exists o | o in catalog :: o.directory in manifest.replacements && o.modulePath == n.modulePath
  }

  /** A chain of modules from this one down to an owner of a changed file, each
      asking for the next. */
  ghost predicate Touched(catalog: seq<Module>, manifests: string -> Option<Manifest>, changes: seq<string>,
                          m: Module) {
    exists chain :: Links(catalog, manifests, changes, m, chain)
  }

  ghost predicate Links(catalog: seq<Module>, manifests: string -> Option<Manifest>, changes: seq<string>, m: Module,
                        chain: seq<Module>) {
    && chain != [] && chain[0] == m && (forall n | n in chain :: n in catalog)
    && (forall i | 0 <= i < |chain| - 1 :: AsksFor(catalog, manifests, chain[i], chain[i + 1]))
    && exists name | name in changes :: Belongs(catalog, name, chain[|chain| - 1])
  }

  /** A change from which no narrower answer follows: none at all, or one of a file
      that belongs to no module or to a fixture. */
  ghost predicate Unbounded(catalog: seq<Module>, changes: seq<string>) {
    changes == [] || exists name | name in changes ::
      forall m | m in catalog && !m.fixture :: !Belongs(catalog, name, m)
  }

  lemma LiesIsContained(directory: string, name: string)
    ensures Lies(directory, name) <==> Contains(directory, name)
  {
    if Contains(directory, name) {
      assert name == directory + "/" + name[|directory + "/"|..];
    }
  }

  lemma TopLevelIsExact(name: string)
    ensures TopLevelSource(name) <==> exists stem :: name == stem + ".go" && '/' !in stem
  {
    if TopLevelSource(name) {
      assert name == name[..|name| - 3] + ".go";
    }
    if stem :| name == stem + ".go" && '/' !in stem {
      assert name[|name| - 3..] == ".go";
    }
  }

  lemma BelongsIsOwner(catalog: seq<Module>, name: string, m: Module)
    requires m in catalog
    requires forall a, b | a in catalog && b in catalog && a.directory == b.directory :: a == b
    ensures Belongs(catalog, name, m) <==> IsOwner(catalog, name, m.directory)
  {
    hide Lies, Contains, TopLevelSource;
    forall directory ensures Lies(directory, name) <==> Contains(directory, name) {
      LiesIsContained(directory, name);
    }
    TopLevelIsExact(name);
  }

  /** Directories tell the modules of a catalog apart. */
  ghost predicate Apart(catalog: seq<Module>) {
    forall a, b | a in catalog && b in catalog && a.directory == b.directory :: a == b
  }

  lemma DistinctIsApart(catalog: seq<Module>)
    requires DistinctDirectories(catalog)
    ensures Apart(catalog)
  {
    forall a, b | a in catalog && b in catalog && a.directory == b.directory ensures a == b {
      var i :| 0 <= i < |catalog| && catalog[i] == a;
      var j :| 0 <= j < |catalog| && catalog[j] == b;
      assert i == j;
    }
  }

  lemma OwnerIsListed(catalog: seq<Module>, name: string, directory: string)
    requires IsOwner(catalog, name, directory)
    ensures exists m :: m in catalog && m.directory == directory
  {
  }

  lemma UnboundedIsWidened(catalog: seq<Module>, changes: seq<string>)
    requires Apart(catalog)
    ensures Unbounded(catalog, changes) <==> Widened(catalog, changes)
  {
    hide Belongs, IsOwner;
    forall name ensures Narrow(catalog, name) <==> exists m | m in catalog && !m.fixture :: Belongs(catalog, name, m) {
      if Narrow(catalog, name) {
        var d :| IsOwner(catalog, name, d) && !FixtureAt(catalog, d);
        OwnerIsListed(catalog, name, d);
        var m :| m in catalog && m.directory == d;
        BelongsIsOwner(catalog, name, m);
      }
      if m :| m in catalog && !m.fixture && Belongs(catalog, name, m) {
        BelongsIsOwner(catalog, name, m);
        assert !FixtureAt(catalog, m.directory);
      }
    }
  }

  lemma AskingIsEdge(catalog: seq<Module>, manifests: string -> Option<Manifest>, m: Module, n: Module)
    requires Apart(catalog) && m in catalog && n in catalog
    requires forall o | o in catalog :: Readable(o, manifests)
    ensures AsksFor(catalog, manifests, m, n) <==> Edge(catalog, manifests, m.directory, n.directory)
  {
    var manifest := manifests(m.directory).value;
    assert manifests(m.directory) == Some(manifest);
    assert AsksFor(catalog, manifests, m, n) <==> Declares(catalog, m, n.modulePath, manifests);
  }

  lemma TouchedReaches(catalog: seq<Module>, manifests: string -> Option<Manifest>, changes: seq<string>, m: Module,
                       chain: seq<Module>)
    requires Apart(catalog) && forall o | o in catalog :: Readable(o, manifests)
    requires Links(catalog, manifests, changes, m, chain)
    ensures Reaches(catalog, manifests, changes, m.directory)
  {
    hide AsksFor, Edge, Belongs, IsOwner;
    var path := seq(|chain|, (i: int) requires 0 <= i < |chain| => chain[i].directory);
    forall i | 0 <= i < |path| - 1 ensures Edge(catalog, manifests, path[i], path[i + 1]) {
      assert chain[i] in chain && chain[i + 1] in chain && AsksFor(catalog, manifests, chain[i], chain[i + 1]);
      AskingIsEdge(catalog, manifests, chain[i], chain[i + 1]);
    }
    var name :| name in changes && Belongs(catalog, name, chain[|chain| - 1]);
    assert chain[|chain| - 1] in chain;
    BelongsIsOwner(catalog, name, chain[|chain| - 1]);
    assert Chain(catalog, manifests, changes, path);
  }

  lemma {:induction false} ReachesTouched(catalog: seq<Module>, manifests: string -> Option<Manifest>,
                                          changes: seq<string>, m: Module, path: seq<string>)
    returns (chain: seq<Module>)
    requires Apart(catalog) && m in catalog && forall o | o in catalog :: Readable(o, manifests)
    requires path != [] && Chain(catalog, manifests, changes, path) && path[0] == m.directory
    ensures Links(catalog, manifests, changes, m, chain)
    decreases |path|
  {
    hide AsksFor, Edge, Belongs, IsOwner;
    if |path| == 1 {
      chain := [m];
      var name :| name in changes && IsOwner(catalog, name, m.directory);
      BelongsIsOwner(catalog, name, m);
    } else {
      assert Edge(catalog, manifests, path[0], path[0 + 1]);
      EdgeIsListed(catalog, manifests, path[0], path[1]);
      var next :| next in catalog && next.directory == path[1];
      AskingIsEdge(catalog, manifests, m, next);
      assert Chain(catalog, manifests, changes, path[1..]) by {
        forall i | 0 <= i < |path| - 2 ensures Edge(catalog, manifests, path[1..][i], path[1..][i + 1]) {
          assert Edge(catalog, manifests, path[i + 1], path[i + 1 + 1]);
        }
      }
      var rest := ReachesTouched(catalog, manifests, changes, next, path[1..]);
      chain := [m] + rest;
      forall i | 0 <= i < |chain| - 1 ensures AsksFor(catalog, manifests, chain[i], chain[i + 1]) {
        if i > 0 {
          assert AsksFor(catalog, manifests, rest[i - 1], rest[i - 1 + 1]);
        }
      }
    }
  }

  lemma EdgeIsListed(catalog: seq<Module>, manifests: string -> Option<Manifest>, a: string, b: string)
    requires forall o | o in catalog :: Readable(o, manifests)
    requires Edge(catalog, manifests, a, b)
    ensures exists n :: n in catalog && n.directory == b
  {
  }

  /** A module is in the answer exactly if the change is unbounded, or touches it. */
  lemma AnswerIsExact(catalog: seq<Module>, manifests: string -> Option<Manifest>, changes: seq<string>, m: Module)
    requires DistinctDirectories(catalog) && forall o | o in catalog :: Readable(o, manifests)
    ensures m in Answer(catalog, manifests, changes) <==>
      m in catalog && (Unbounded(catalog, changes) || Touched(catalog, manifests, changes, m))
  {
    hide Unbounded, Widened, DistinctDirectories, Chain, Links;
    DistinctIsApart(catalog);
    UnboundedIsWidened(catalog, changes);
    if m in catalog && !Widened(catalog, changes) {
      ChosenMembers(catalog, Reaching(catalog, manifests, changes));
      if Touched(catalog, manifests, changes, m) {
        var chain :| Links(catalog, manifests, changes, m, chain);
        TouchedReaches(catalog, manifests, changes, m, chain);
      }
      if Reaches(catalog, manifests, changes, m.directory) {
        var path :| path != [] && Chain(catalog, manifests, changes, path) && path[0] == m.directory;
        var chain := ReachesTouched(catalog, manifests, changes, m, path);
      }
    } else if m !in catalog {
      ChosenMembers(catalog, set d | d in Directories(catalog) && Reaches(catalog, manifests, changes, d));
    }
  }

  /** The places in the catalog at which the answer's modules stand, in that order. */
  lemma {:induction false} AnswerKeepsOrder(catalog: seq<Module>, keep: set<string>) returns (places: seq<nat>)
    ensures |places| == |Chosen(catalog, keep)|
    ensures forall k | 0 <= k < |places| :: places[k] < |catalog| && Chosen(catalog, keep)[k] == catalog[places[k]]
    ensures forall j, k | 0 <= j < k < |places| :: places[j] < places[k]
  {
    if catalog == [] {
      places := [];
    } else {
      var last := |catalog| - 1;
      places := AnswerKeepsOrder(catalog[..last], keep);
      if catalog[last].directory in keep {
        places := places + [last];
      }
    }
  }
}
