/** Where in a document an action or an image can be named, said of places in the
    tree: which turns lead to a place, and under which keys. */
module UsePlaces {
  import opened Wrappers
  import opened ActionGraph

  /** One turn on the way down a tree: into the value of a mapping's pair, into a
      sequence's item, into a document's content, or to what an alias stands for. */
  datatype Turn = Value(index: nat) | Item(index: nat) | Content(index: nat) | Meant

  /** The node that a route leads to, if it fits the tree. */
  ghost function Follow(node: Node, route: seq<Turn>): Option<Node>
    decreases |route|
  {
    if route == [] then Some(node)
    else
      match (node, route[0])
      case (Mapping(pairs), Value(k)) => if k < |pairs| then Follow(pairs[k].value, route[1..]) else None
      case (Sequence(items), Item(k)) => if k < |items| then Follow(items[k], route[1..]) else None
      case (Document(content), Content(k)) => if k < |content| then Follow(content[k], route[1..]) else None
      case (Alias(target), Meant) => Follow(target, route[1..])
      case _ => None
  }

  /** The keys passed on the way: "[]" for an item of a sequence, and none for a
      merge key, an alias or the document itself. */
  ghost function Keys(node: Node, route: seq<Turn>): seq<string>
    requires Follow(node, route).Some?
    decreases |route|
  {
    if route == [] then []
    else
      match route[0]
      case Value(k) =>
        (if node.pairs[k].key == "<<" then [] else [node.pairs[k].key]) + Keys(node.pairs[k].value, route[1..])
      case Item(k) => ["[]"] + Keys(node.items[k], route[1..])
      case Content(k) => Keys(node.content[k], route[1..])
      case Meant => Keys(node.target, route[1..])
  }

  /** A job, a step of a job, or a step of a composite action. */
  datatype Site = Job(job: string) | JobStep(job: string) | RunStep

  ghost function Where(site: Site): seq<string> {
    match site
    case Job(job) => ["jobs", job]
    case JobStep(job) => ["jobs", job, "steps", "[]"]
    case RunStep => ["runs", "steps", "[]"]
  }

  /** The value under a key is this text, itself or as what an alias stands for. */
  ghost predicate HasText(node: Node, key: string, text: string) {
    node.Mapping? && exists pair | pair in node.pairs ::
      pair.key == key && (pair.value == Scalar(text) || pair.value == Alias(Scalar(text)))
  }

  /** What can be said of a node and of the keys above it. */
  type Finding = (Node, seq<string>) -> bool

  /** Below keys `above`, the route ends at a node of which this is true. */
  ghost predicate FoundAt(node: Node, above: seq<string>, finding: Finding, route: seq<Turn>) {
    Follow(node, route).Some? && finding(Follow(node, route).value, above + Keys(node, route))
  }

  ghost predicate FoundBelow(node: Node, above: seq<string>, finding: Finding) {
    exists route :: FoundAt(node, above, finding, route)
  }

  /** A site that names the action. */
  ghost function Naming(name: string): Finding {
    (node: Node, keys: seq<string>) => HasText(node, "uses", "./" + name) && exists site :: keys == Where(site)
  }

  /** A job, or a step of a job or of an action, uses the local action. */
  ghost predicate Names(document: Node, name: string) {
    FoundBelow(document, [], Naming(name))
  }

  /** What the action runs is given an image that is no pinned text. */
  ghost function Loose(pinned: string -> bool): Finding {
    (node: Node, keys: seq<string>) =>
      && keys == ["runs"] && node.Mapping?
      && exists pair | pair in node.pairs :: pair.key == "image" && forall text ::
           pair.value == Scalar(text) || pair.value == Alias(Scalar(text)) ==> !pinned(text)
  }

  ghost predicate RunsLoose(document: Node, pinned: string -> bool) {
    FoundBelow(document, [], Loose(pinned))
  }

  lemma SitesAreUses(path: seq<string>)
    ensures UsesPath(path) <==> exists site :: path == Where(site)
  {
    if UsesPath(path) {
      var site := if |path| == 2 then Job(path[1]) else if |path| == 4 then JobStep(path[1]) else RunStep;
      assert path == Where(site);
    }
  }

  lemma TextIsLocalUse(pairs: seq<Pair>, path: seq<string>, name: string)
    ensures HasText(Mapping(pairs), "uses", "./" + name) && UsesPath(path) <==>
      exists i | 0 <= i < |pairs| && IsLocalUse(pairs[i], path) :: ActionName(Text(Resolved(pairs[i].value))) == name
  {
    if HasText(Mapping(pairs), "uses", "./" + name) && UsesPath(path) {
      var pair :| pair in pairs && pair.key == "uses"
        && (pair.value == Scalar("./" + name) || pair.value == Alias(Scalar("./" + name)));
      var i :| 0 <= i < |pairs| && pairs[i] == pair;
      assert IsLocalUse(pairs[i], path) && ActionName(Text(Resolved(pairs[i].value))) == name;
    }
    if i :| 0 <= i < |pairs| && IsLocalUse(pairs[i], path) && ActionName(Text(Resolved(pairs[i].value))) == name {
      assert Text(Resolved(pairs[i].value)) == "./" + name;
      assert pairs[i] in pairs;
    }
  }

  /** The turn into a node below, and the keys passed by it. */
  ghost function Below(node: Node, turn: Turn): Option<(Node, seq<string>)> {
    match (node, turn)
    case (Mapping(pairs), Value(k)) =>
      if k < |pairs| then Some((pairs[k].value, if pairs[k].key == "<<" then [] else [pairs[k].key])) else None
    case (Sequence(items), Item(k)) => if k < |items| then Some((items[k], ["[]"])) else None
    case (Document(content), Content(k)) => if k < |content| then Some((content[k], [])) else None
    case (Alias(target), Meant) => Some((target, []))
    case _ => None
  }

  lemma FollowStep(node: Node, turn: Turn, rest: seq<Turn>)
    ensures Below(node, turn).None? ==> Follow(node, [turn] + rest).None?
    ensures Below(node, turn).Some? ==> Follow(node, [turn] + rest) == Follow(Below(node, turn).value.0, rest)
    ensures Below(node, turn).Some? && Follow(node, [turn] + rest).Some? ==>
      Keys(node, [turn] + rest) == Below(node, turn).value.1 + Keys(Below(node, turn).value.0, rest)
  {
    assert ([turn] + rest)[0] == turn && ([turn] + rest)[1..] == rest;
  }

  lemma FoundFurther(node: Node, above: seq<string>, finding: Finding, turn: Turn, rest: seq<Turn>)
    ensures FoundAt(node, above, finding, [turn] + rest) <==>
      && Below(node, turn).Some?
      && FoundAt(Below(node, turn).value.0, above + Below(node, turn).value.1, finding, rest)
  {
    hide Below, Follow, Keys;
    FollowStep(node, turn, rest);
    if Below(node, turn).Some? && Follow(node, [turn] + rest).Some? {
      var (next, keys) := Below(node, turn).value;
      assert above + Keys(node, [turn] + rest) == above + keys + Keys(next, rest);
    }
  }

  lemma FoundHere(node: Node, above: seq<string>, finding: Finding)
    ensures FoundAt(node, above, finding, []) <==> finding(node, above)
  {
    assert above + [] == above;
  }

  ghost predicate FoundAfter(node: Node, above: seq<string>, finding: Finding, turn: Turn) {
    && Below(node, turn).Some?
    && FoundBelow(Below(node, turn).value.0, above + Below(node, turn).value.1, finding)
  }

  /** What is found below a node is found at it or below one of its turns. */
  lemma FoundStep(node: Node, above: seq<string>, finding: Finding)
    ensures FoundBelow(node, above, finding) <==>
      finding(node, above) || exists turn :: FoundAfter(node, above, finding, turn)
  {
    hide Below, FoundAt;
    FoundHere(node, above, finding);
    if FoundBelow(node, above, finding) {
      var route :| FoundAt(node, above, finding, route);
      if route != [] {
        assert route == [route[0]] + route[1..];
        FoundFurther(node, above, finding, route[0], route[1..]);
        assert FoundAfter(node, above, finding, route[0]);
      }
    }
    if turn :| FoundAfter(node, above, finding, turn) {
      var rest :| FoundAt(Below(node, turn).value.0, above + Below(node, turn).value.1, finding, rest);
      FoundFurther(node, above, finding, turn, rest);
    }
  }

  ghost predicate FoundInParts(node: Node, path: seq<string>, finding: Finding) {
    match node
    case Scalar(_) => false
    case Alias(target) => FoundBelow(target, path, finding)
    case Mapping(pairs) =>
      exists i | 0 <= i < |pairs| :: FoundBelow(pairs[i].value, ChildPath(path, pairs[i].key), finding)
    case Sequence(items) => exists i | 0 <= i < |items| :: FoundBelow(items[i], path + ["[]"], finding)
    case Document(content) => exists i | 0 <= i < |content| :: FoundBelow(content[i], path, finding)
  }

  /** The same, by the kind of the node. */
  lemma FoundByKind(node: Node, path: seq<string>, finding: Finding)
    ensures FoundBelow(node, path, finding) <==> finding(node, path) || FoundInParts(node, path, finding)
  {
    hide FoundBelow;
    FoundStep(node, path, finding);
    assert path + [] == path;
    match node
    case Scalar(_) =>
    case Alias(target) =>
      assert FoundAfter(node, path, finding, Meant) <==> FoundBelow(target, path, finding);
    case Mapping(pairs) =>
      forall i | 0 <= i < |pairs|
        ensures FoundAfter(node, path, finding, Value(i)) <==>
          FoundBelow(pairs[i].value, ChildPath(path, pairs[i].key), finding)
      {
      }
    case Sequence(items) =>
      forall i | 0 <= i < |items|
        ensures FoundAfter(node, path, finding, Item(i)) <==> FoundBelow(items[i], path + ["[]"], finding)
      {
      }
    case Document(content) =>
      forall i | 0 <= i < |content|
        ensures FoundAfter(node, path, finding, Content(i)) <==> FoundBelow(content[i], path, finding)
      {
      }
  }

  /** The uses that the walk follows are the names that places in the document give. */
  lemma {:induction false} UsesAreNamed(node: Node, path: seq<string>, name: string)
    ensures name in Uses(node, path) <==> FoundBelow(node, path, Naming(name))
    decreases node
  {
    hide FoundBelow, HasText, IsLocalUse, ActionName, Where;
    FoundByKind(node, path, Naming(name));
    SitesAreUses(path);
    OnlyMappings(node, "uses", "./" + name);
    match node
    case Scalar(_) =>
    case Alias(target) => UsesAreNamed(target, path, name);
    case Mapping(pairs) =>
      TextIsLocalUse(pairs, path, name);
      MappingUses(pairs, path, name);
      forall i | 0 <= i < |pairs| {
        UsesAreNamed(pairs[i].value, ChildPath(path, pairs[i].key), name);
      }
    case Sequence(items) =>
      forall i | 0 <= i < |items| {
        UsesAreNamed(items[i], path + ["[]"], name);
      }
    case Document(content) =>
      forall i | 0 <= i < |content| {
        UsesAreNamed(content[i], path, name);
      }
  }

  lemma UsesAreNames(document: Node, name: string)
    ensures name in Uses(document, []) <==> Names(document, name)
  {
    UsesAreNamed(document, [], name);
  }

  lemma ImageIsLoose(pairs: seq<Pair>, path: seq<string>, pinned: string -> bool)
    ensures Loose(pinned)(Mapping(pairs), path) <==>
      exists i | 0 <= i < |pairs| && IsImage(pairs[i], path) ::
        !(Resolved(pairs[i].value).Scalar? && pinned(Text(Resolved(pairs[i].value))))
  {
    forall i | 0 <= i < |pairs|
      ensures (Resolved(pairs[i].value).Scalar? && pinned(Text(Resolved(pairs[i].value)))) <==>
        exists text | pairs[i].value == Scalar(text) || pairs[i].value == Alias(Scalar(text)) :: pinned(text)
    {
      if Resolved(pairs[i].value).Scalar? {
        var text := Text(Resolved(pairs[i].value));
        assert pairs[i].value == Scalar(text) || pairs[i].value == Alias(Scalar(text));
      }
    }
    forall i | 0 <= i < |pairs| ensures pairs[i] in pairs {
    }
  }

  /** An action's images are pinned exactly if no place gives a loose one. */
  lemma {:induction false} PinnedIsNotLoose(node: Node, path: seq<string>, pinned: string -> bool)
    ensures ImagesPinned(node, path, pinned) <==> !FoundBelow(node, path, Loose(pinned))
    decreases node
  {
    hide FoundBelow, IsImage, Resolved, Text;
    FoundByKind(node, path, Loose(pinned));
    match node
    case Scalar(_) =>
    case Alias(target) => PinnedIsNotLoose(target, path, pinned);
    case Mapping(pairs) =>
      ImageIsLoose(pairs, path, pinned);
      forall i | 0 <= i < |pairs| {
        PinnedIsNotLoose(pairs[i].value, ChildPath(path, pairs[i].key), pinned);
      }
    case Sequence(items) =>
      forall i | 0 <= i < |items| {
        PinnedIsNotLoose(items[i], path + ["[]"], pinned);
      }
    case Document(content) =>
      forall i | 0 <= i < |content| {
        PinnedIsNotLoose(content[i], path, pinned);
      }
  }

  lemma ImagesAreRun(document: Node, pinned: string -> bool)
    ensures ImagesPinned(document, [], pinned) <==> !RunsLoose(document, pinned)
  {
    PinnedIsNotLoose(document, [], pinned);
  }

  lemma MappingUses(pairs: seq<Pair>, path: seq<string>, name: string)
    ensures name in Uses(Mapping(pairs), path) <==>
      || (exists i | 0 <= i < |pairs| && IsLocalUse(pairs[i], path) ::
            ActionName(Text(Resolved(pairs[i].value))) == name)
      || exists i | 0 <= i < |pairs| :: name in Uses(pairs[i].value, ChildPath(path, pairs[i].key))
  {
    if name in Uses(Mapping(pairs), path) {
      var i :| 0 <= i < |pairs| && name in PairUses(pairs[i], path);
    }
    if i :| 0 <= i < |pairs| && IsLocalUse(pairs[i], path) && ActionName(Text(Resolved(pairs[i].value))) == name {
      assert name in PairUses(pairs[i], path);
    }
    if i :| 0 <= i < |pairs| && name in Uses(pairs[i].value, ChildPath(path, pairs[i].key)) {
      assert name in PairUses(pairs[i], path);
    }
  }

  lemma OnlyMappings(node: Node, key: string, text: string)
    ensures !node.Mapping? ==> !HasText(node, key, text)
  {
  }

  // ----- what an inspection is to find

  /** A workflow can be read, is within its limit and breaks no rule of its own. */
  ghost predicate Vetted(workflow: Descriptor) {
    exists size: nat, document | size <= 0x40_0000 :: workflow == Descriptor(size, Some(document), 0)
  }

  /** The same of an action under a canonical name, whose images are all pinned. */
  ghost predicate Wholesome(repository: Repository, name: string) {
    && name != "" && repository.canonical(name) && Vetted(repository.find(name))
    && !RunsLoose(repository.find(name).document.value, repository.pinned)
  }

  lemma PassesIsWholesome(repository: Repository, name: string)
    ensures repository.Passes(name) <==> Wholesome(repository, name)
  {
    hide RunsLoose, ImagesPinned;
    var found := repository.find(name);
    if found.Descriptor? && found.document.Some? {
      ImagesAreRun(found.document.value, repository.pinned);
      assert found == Descriptor(found.size, Some(found.document.value), found.findings);
    }
  }

  /** A place in the descriptor's document names the action. */
  ghost predicate Mentions(descriptor: Descriptor, name: string) {
    descriptor.Descriptor? && descriptor.document.Some? && Names(descriptor.document.value, name)
  }

  /** What an action uses is what places in its document name. */
  lemma NextIsMentioned(repository: Repository, name: string, next: string)
    ensures next in repository.Next(name) <==> Mentions(repository.find(name), next)
  {
    var found := repository.find(name);
    if found.Descriptor? && found.document.Some? {
      UsesAreNames(found.document.value, next);
    }
  }
}
